/** The text pipeline of content.js: whitespace normalisation, removal of a
    leading role label, the 90-character preview and the search text. */
module Text {

  import opened Common

  /** The characters matched by JavaScript's `\s` and removed by
      `String.prototype.trim`: WhiteSpace and LineTerminator. */
  predicate IsSpace(c: char) {
    c == '\t' || c == '\n' || c == '\U{000B}' || c == '\U{000C}' || c == '\r' || c == ' ' ||
    c == '\U{00A0}' || c == '\U{1680}' || ('\U{2000}' <= c <= '\U{200A}') ||
    c == '\U{2028}' || c == '\U{2029}' || c == '\U{202F}' || c == '\U{205F}' ||
    c == '\U{3000}' || c == '\U{FEFF}'
  }

  /** ZERO WIDTH SPACE, which `\s` does not match. */
  const Zwsp: char := '\U{200B}'

  /** HORIZONTAL ELLIPSIS, appended to a truncated preview. */
  const Ellipsis: char := '\U{2026}'

  const PreviewLength: nat := 90

  // ---------------------------------------------------------------------
  // Shapes of strings

  /** Every whitespace character is a plain space. */
  ghost predicate OnlyPlainSpaces(s: string) {
    forall i :: 0 <= i < |s| && IsSpace(s[i]) ==> s[i] == ' '
  }

  ghost predicate NoZwsp(s: string) {
    forall i :: 0 <= i < |s| ==> s[i] != Zwsp
  }

  /** No colon of either width, see `IsColon`. */
  ghost predicate NoColon(s: string) {
    forall i :: 0 <= i < |s| ==> !IsColon(s[i])
  }

  /** No whitespace at either end. */
  ghost predicate Trimmed(s: string) {
    s == [] || (!IsSpace(s[0]) && !IsSpace(s[|s| - 1]))
  }

  /** What `normalizeText` guarantees of its output. */
  ghost predicate Normalized(s: string) {
    OnlyPlainSpaces(s) && NoZwsp(s) && Trimmed(s)
  }

  // ---------------------------------------------------------------------
  // Trimming

  /** `trimStart`: drops the leading run of whitespace. */
  function TrimStart(s: string): (r: string)
    ensures |r| <= |s| && r == s[|s| - |r|..]
    ensures r == [] || !IsSpace(r[0])
    decreases |s|
  {
    if s != [] && IsSpace(s[0]) then TrimStart(s[1..]) else s
  }

  /** Everything `trimStart` drops is whitespace. */
  lemma {:induction false} TrimStartDropsSpaces(s: string)
    ensures forall i :: 0 <= i < |s| - |TrimStart(s)| ==> IsSpace(s[i])
    decreases |s|
  {
    if s != [] && IsSpace(s[0]) {
      TrimStartDropsSpaces(s[1..]);
      assert forall i :: 1 <= i < |s| ==> s[i] == s[1..][i - 1];
    }
  }

  /** `trimEnd`: drops the trailing run of whitespace. */
  function TrimEnd(s: string): (r: string)
    ensures |r| <= |s| && r == s[..|r|]
    ensures r == [] || !IsSpace(r[|r| - 1])
    decreases |s|
  {
    if s != [] && IsSpace(s[|s| - 1]) then TrimEnd(s[..|s| - 1]) else s
  }

  /** Everything `trimEnd` drops is whitespace. */
  lemma {:induction false} TrimEndDropsSpaces(s: string)
    ensures forall i :: |TrimEnd(s)| <= i < |s| ==> IsSpace(s[i])
    decreases |s|
  {
    if s != [] && IsSpace(s[|s| - 1]) {
      TrimEndDropsSpaces(s[..|s| - 1]);
    }
  }

  /** `String.prototype.trim`. */
  function Trim(s: string): (r: string)
    ensures Trimmed(r)
    ensures |r| <= |s|
  {
    TrimEnd(TrimStart(s))
  }

  /** Trimming only removes characters, so it keeps the character-wise shapes. */
  lemma TrimKeepsShapes(s: string)
    ensures OnlyPlainSpaces(s) ==> OnlyPlainSpaces(Trim(s))
    ensures NoZwsp(s) ==> NoZwsp(Trim(s))
    ensures NoColon(s) ==> NoColon(Trim(s))
  {
    var a := TrimStart(s);
    SuffixShapes(s, a);
    PrefixShapes(a, TrimEnd(a));
  }

  /** A trimmed string is its own trim. */
  lemma TrimOfTrimmed(s: string)
    requires Trimmed(s)
    ensures Trim(s) == s
  {
  }

  /** Trim removes exactly the whitespace at the two ends: it is empty only
      when the whole string is whitespace. */
  lemma {:induction false} TrimEmptyIff(s: string)
    ensures Trim(s) == [] <==> forall i :: 0 <= i < |s| ==> IsSpace(s[i])
  {
    var a := TrimStart(s);
    TrimStartDropsSpaces(s);
    TrimEndDropsSpaces(a);
    if a != [] {
      assert !IsSpace(s[|s| - |a|]);
      assert TrimEnd(a) != [];
    }
  }

  // ---------------------------------------------------------------------
  // normalizeText

  /** `s.replace(/\s+/g, " ")`: each maximal run of whitespace becomes one space. */
  function CollapseWhitespace(s: string): (r: string)
    ensures |r| <= |s|
    ensures r == [] <==> s == []
    ensures s != [] && !IsSpace(s[0]) ==> r[0] == s[0]
    ensures s != [] && IsSpace(s[0]) ==> r[0] == ' '
    decreases |s|
  {
    if s == [] then []
    else if IsSpace(s[0]) then
      var rest := TrimStart(s);
      [' '] + CollapseWhitespace(rest)
    else
      [s[0]] + CollapseWhitespace(s[1..])
  }

  /** After collapsing, the only whitespace character left is the plain space. */
  lemma {:induction false} CollapseLeavesPlainSpaces(s: string)
    ensures OnlyPlainSpaces(CollapseWhitespace(s))
    decreases |s|
  {
    if s != [] {
      var rest := if IsSpace(s[0]) then TrimStart(s) else s[1..];
      var head := if IsSpace(s[0]) then ' ' else s[0];
      CollapseLeavesPlainSpaces(rest);
      var r := CollapseWhitespace(s);
      assert r == [head] + CollapseWhitespace(rest);
      forall i | 0 <= i < |r| && IsSpace(r[i]) ensures r[i] == ' ' {
        if i > 0 {
          assert r[i] == CollapseWhitespace(rest)[i - 1];
        }
      }
    }
  }

  /** `s.replace(/\u200B/g, "")`: the input with its zero-width spaces
      deleted and every other character kept, in order. */
  function RemoveZwsp(s: string): (r: string)
    ensures IsSubsequence(r, s)
    ensures |r| + multiset(s)[Zwsp] == |s|
    ensures NoZwsp(r)
    ensures forall c :: c in r <==> c in s && c != Zwsp
    decreases |s|
  {
    if s == [] then []
    else
      var q, x := s[..|s| - 1], s[|s| - 1];
      assert s == q + [x];
      var r := RemoveZwsp(q);
      if x == Zwsp then r
      else
        assert (r + [x])[..|r|] == r;
        r + [x]
  }

  /** `normalizeText`: collapse whitespace runs, drop zero-width spaces, trim. */
  function NormalizeText(s: string): string {
    Trim(RemoveZwsp(CollapseWhitespace(s)))
  }

  /** A suffix keeps the character-wise shapes. */
  lemma SuffixShapes(s: string, u: string)
    requires |u| <= |s| && u == s[|s| - |u|..]
    ensures OnlyPlainSpaces(s) ==> OnlyPlainSpaces(u)
    ensures NoZwsp(s) ==> NoZwsp(u)
    ensures NoColon(s) ==> NoColon(u)
  {
    assert forall i :: 0 <= i < |u| ==> u[i] == s[|s| - |u| + i];
  }

  /** So does a prefix. */
  lemma PrefixShapes(s: string, u: string)
    requires |u| <= |s| && u == s[..|u|]
    ensures OnlyPlainSpaces(s) ==> OnlyPlainSpaces(u)
    ensures NoZwsp(s) ==> NoZwsp(u)
    ensures NoColon(s) ==> NoColon(u)
  {
    assert forall i :: 0 <= i < |u| ==> u[i] == s[i];
  }

  /** Removing characters other than whitespace keeps "only plain spaces". */
  lemma RemoveZwspKeepsPlainSpaces(s: string)
    requires OnlyPlainSpaces(s)
    ensures OnlyPlainSpaces(RemoveZwsp(s))
  {
    var r := RemoveZwsp(s);
    forall i | 0 <= i < |r| && IsSpace(r[i]) ensures r[i] == ' ' {
      assert r[i] in r;
      var j :| 0 <= j < |s| && s[j] == r[i];
    }
  }

  /** The output of `normalizeText` has only plain spaces, no zero-width
      spaces and no whitespace at either end, and is never longer than its input. */
  lemma NormalizeTextShape(s: string)
    ensures Normalized(NormalizeText(s))
    ensures |NormalizeText(s)| <= |s|
  {
    var c := CollapseWhitespace(s);
    var z := RemoveZwsp(c);
    CollapseLeavesPlainSpaces(s);
    RemoveZwspKeepsPlainSpaces(c);
    TrimKeepsShapes(z);
  }

  /** `normalizeText` returns "" exactly when its input consists of
      whitespace and zero-width spaces only. */
  lemma NormalizeEmptyIff(s: string)
    ensures NormalizeText(s) == [] <==> forall i :: 0 <= i < |s| ==> IsSpace(s[i]) || s[i] == Zwsp
  {
    var n := NormalizeText(s);
    NormalizeKeepsVisible(s);
    FilterSpec(s, Visible);
    FilterSpec(n, Visible);
    if forall i :: 0 <= i < |s| ==> IsSpace(s[i]) || s[i] == Zwsp {
      FilterNone(s, Visible);
      NormalizeTextShape(s);
    } else {
      var m :| 0 <= m < |s| && !IsSpace(s[m]) && s[m] != Zwsp;
      assert s[m] in s && Visible(s[m]);
    }
  }

  /** A character a reader sees: neither whitespace nor a zero-width space. */
  predicate Visible(c: char) {
    !IsSpace(c) && c != Zwsp
  }

  /** `normalizeText` keeps every visible character of its input, each
      occurrence, in order, and introduces no other: it only changes the
      whitespace and drops the zero-width spaces. */
  lemma NormalizeKeepsVisible(s: string)
    ensures Filter(NormalizeText(s), Visible) == Filter(s, Visible)
  {
    var c := CollapseWhitespace(s);
    CollapseKeepsVisible(s);
    RemoveZwspKeepsVisible(c);
    TrimKeepsVisible(RemoveZwsp(c));
  }

  /** A visible character splits the collapse: the runs on either side are
      collapsed separately, so words are never joined. */
  lemma CollapseAroundVisible(a: string, c: char, b: string)
    requires !IsSpace(c)
    ensures CollapseWhitespace(a + [c] + b) == CollapseWhitespace(a) + [c] + CollapseWhitespace(b)
  {
    var y := [c] + b;
    assert a + [c] + b == a + y;
    assert y[1..] == b;
    CollapseBeforeVisible(a, y);
  }

  lemma {:induction false} CollapseBeforeVisible(a: string, y: string)
    requires y != [] && !IsSpace(y[0])
    ensures CollapseWhitespace(a + y) == CollapseWhitespace(a) + CollapseWhitespace(y)
    decreases |a|
  {
    if a == [] {
      assert a + y == y;
    } else if IsSpace(a[0]) {
      CollapseBeforeVisible(TrimStart(a), y);
      CollapseAfterSpace(a, y);
    } else {
      CollapseBeforeVisible(a[1..], y);
      CollapseAfterVisible(a[0], a[1..], y);
      assert a == [a[0]] + a[1..];
    }
  }

  lemma CollapseAfterSpace(a: string, y: string)
    requires a != [] && IsSpace(a[0]) && y != [] && !IsSpace(y[0])
    requires CollapseWhitespace(TrimStart(a) + y) == CollapseWhitespace(TrimStart(a)) + CollapseWhitespace(y)
    ensures CollapseWhitespace(a + y) == CollapseWhitespace(a) + CollapseWhitespace(y)
  {
    var s, rest := a + y, TrimStart(a);
    TrimStartConcat(a, y);
    assert s[0] == a[0];
    assert CollapseWhitespace(s) == [' '] + CollapseWhitespace(rest + y);
    assert CollapseWhitespace(a) == [' '] + CollapseWhitespace(rest);
    ConsConcat(' ', CollapseWhitespace(rest), CollapseWhitespace(y));
  }

  lemma CollapseAfterVisible(c: char, t: string, y: string)
    requires !IsSpace(c)
    requires CollapseWhitespace(t + y) == CollapseWhitespace(t) + CollapseWhitespace(y)
    ensures CollapseWhitespace([c] + t + y) == CollapseWhitespace([c] + t) + CollapseWhitespace(y)
  {
    ConsConcat(c, t, y);
    CollapseVisibleHead(c, t + y);
    CollapseVisibleHead(c, t);
    ConsChain(c, CollapseWhitespace([c] + (t + y)), CollapseWhitespace([c] + t), CollapseWhitespace(t), CollapseWhitespace(y), CollapseWhitespace(t + y));
  }

  lemma ConsChain(c: char, whole: string, head: string, x: string, y: string, z: string)
    requires whole == [c] + z && z == x + y && head == [c] + x
    ensures whole == head + y
  {
    ConsConcat(c, x, y);
  }

  lemma CollapseVisibleHead(c: char, t: string)
    requires !IsSpace(c)
    ensures CollapseWhitespace([c] + t) == [c] + CollapseWhitespace(t)
  {
    assert ([c] + t)[1..] == t;
  }

  lemma ConsConcat(c: char, x: string, y: string)
    ensures [c] + (x + y) == [c] + x + y
  {
  }

  /** Trimming the start of `x + y` stops inside `x` when `y` starts with a
      non-whitespace character. */
  lemma {:induction false} TrimStartConcat(x: string, y: string)
    requires y != [] && !IsSpace(y[0])
    ensures TrimStart(x + y) == TrimStart(x) + y
    decreases |x|
  {
    if x == [] {
      assert x + y == y;
    } else if IsSpace(x[0]) {
      assert (x + y)[1..] == x[1..] + y;
      TrimStartConcat(x[1..], y);
    }
  }

  /** A non-empty run of whitespace collapses to a single plain space. */
  lemma CollapseSpaceRun(w: string)
    requires w != [] && forall i :: 0 <= i < |w| ==> IsSpace(w[i])
    ensures CollapseWhitespace(w) == [' ']
  {
  }

  /** Collapsing whitespace keeps the visible characters, in order. */
  lemma {:induction false} CollapseKeepsVisible(s: string)
    ensures Filter(CollapseWhitespace(s), Visible) == Filter(s, Visible)
    decreases |s|
  {
    if s != [] {
      if IsSpace(s[0]) {
        var rest := TrimStart(s);
        TrimStartKeepsVisible(s);
        FilterConcat([' '], CollapseWhitespace(rest), Visible);
        CollapseKeepsVisible(rest);
      } else {
        assert s == [s[0]] + s[1..];
        FilterConcat([s[0]], s[1..], Visible);
        FilterConcat([s[0]], CollapseWhitespace(s[1..]), Visible);
        CollapseKeepsVisible(s[1..]);
      }
    }
  }

  /** Removing zero-width spaces keeps the visible characters, in order. */
  lemma {:induction false} RemoveZwspKeepsVisible(s: string)
    ensures Filter(RemoveZwsp(s), Visible) == Filter(s, Visible)
    decreases |s|
  {
    if s != [] {
      var q, x := s[..|s| - 1], s[|s| - 1];
      RemoveZwspKeepsVisible(q);
      var r := RemoveZwsp(q);
      if x != Zwsp {
        assert (r + [x])[..|r|] == r;
      }
    }
  }

  /** Trimming keeps the visible characters, in order. */
  lemma TrimKeepsVisible(s: string)
    ensures Filter(Trim(s), Visible) == Filter(s, Visible)
  {
    TrimStartKeepsVisible(s);
    TrimEndKeepsVisible(TrimStart(s));
  }

  lemma TrimStartKeepsVisible(s: string)
    ensures Filter(TrimStart(s), Visible) == Filter(s, Visible)
  {
    var a := TrimStart(s);
    var d := |s| - |a|;
    TrimStartDropsSpaces(s);
    assert s == s[..d] + a;
    FilterConcat(s[..d], a, Visible);
    FilterNone(s[..d], Visible);
  }

  lemma TrimEndKeepsVisible(s: string)
    ensures Filter(TrimEnd(s), Visible) == Filter(s, Visible)
  {
    var e := TrimEnd(s);
    TrimEndDropsSpaces(s);
    assert s == e + s[|e|..];
    FilterConcat(e, s[|e|..], Visible);
    FilterNone(s[|e|..], Visible);
  }

  // ---------------------------------------------------------------------
  // stripLeadingRolePrefixes

  /** The labels of the source's role-prefix pattern, in its alternation order:
      你说, 我说, 用户说, 助手说, ChatGPT说, ChatGPT 说, Assistant says,
      Assistant, User says, User, You said, You, System. */
  const RoleLabels: seq<string> := [
    "\U{4F60}\U{8BF4}", "\U{6211}\U{8BF4}", "\U{7528}\U{6237}\U{8BF4}", "\U{52A9}\U{624B}\U{8BF4}",
    "ChatGPT\U{8BF4}", "ChatGPT \U{8BF4}", "Assistant says", "Assistant",
    "User says", "User", "You said", "You", "System"]

  /** A colon or a FULLWIDTH COLON. */
  predicate IsColon(c: char) {
    c == ':' || c == '\U{FF1A}'
  }

  /** Case folding of a regular expression with the `i` flag and without `u`,
      restricted to the characters the labels contain: only ASCII letters have
      case partners there. */
  function AsciiLower(c: char): char {
    if 'A' <= c <= 'Z' then (c as int + 32) as char else c
  }

  /** `t` begins with `p`, letter case aside. */
  predicate StartsWithIgnoringCase(t: string, p: string)
    decreases |p|
  {
    p == [] || (t != [] && AsciiLower(t[0]) == AsciiLower(p[0]) && StartsWithIgnoringCase(t[1..], p[1..]))
  }

  lemma {:induction false} StartsWithIgnoringCaseLength(t: string, p: string)
    requires StartsWithIgnoringCase(t, p)
    ensures |p| <= |t|
    decreases |p|
  {
    if p != [] {
      StartsWithIgnoringCaseLength(t[1..], p[1..]);
    }
  }

  /** The end of the run of whitespace starting at position `i` of `t`. */
  function SpacesEnd(t: string, i: nat): (j: nat)
    requires i <= |t|
    ensures i <= j <= |t|
    ensures forall k :: i <= k < j ==> IsSpace(t[k])
    ensures j == |t| || !IsSpace(t[j])
    decreases |t| - i
  {
    if i < |t| && IsSpace(t[i]) then SpacesEnd(t, i + 1) else i
  }

  /** The position in `t` after `name`, optional whitespace, a colon and
      optional whitespace; None when `t` does not start that way. What is
      left after it is strictly shorter than `t`. */
  function AfterLabel(t: string, name: string): (r: Option<nat>)
    ensures r.Some? ==> 0 < r.value <= |t|
  {
    if !StartsWithIgnoringCase(t, name) then None
    else
      StartsWithIgnoringCaseLength(t, name);
      var j := SpacesEnd(t, |name|);
      if j < |t| && IsColon(t[j]) then Some(SpacesEnd(t, j + 1)) else None
  }

  /** `t` starts with `name`, then whitespace up to position `c`, a colon at
      `c`, then whitespace up to position `k`. */
  ghost predicate LabelCut(t: string, name: string, c: nat, k: nat) {
    StartsWithIgnoringCase(t, name) && |name| <= c < k <= |t| &&
    (forall i :: |name| <= i < c ==> IsSpace(t[i])) && IsColon(t[c]) &&
    (forall i :: c < i < k ==> IsSpace(t[i]))
  }

  /** `name\s*[:：]\s*` matches at the start of `t` exactly when such a cut
      exists; the match is the longest one, ending before a non-whitespace
      character or at the end of `t`. */
  lemma AfterLabelMatches(t: string, name: string)
    ensures AfterLabel(t, name).Some? ==>
      (exists c: nat :: LabelCut(t, name, c, AfterLabel(t, name).value)) &&
      (AfterLabel(t, name).value == |t| || !IsSpace(t[AfterLabel(t, name).value]))
    ensures (exists c: nat, k: nat :: LabelCut(t, name, c, k)) ==> AfterLabel(t, name).Some?
  {
    if AfterLabel(t, name).Some? {
      StartsWithIgnoringCaseLength(t, name);
      var j := SpacesEnd(t, |name|);
      assert LabelCut(t, name, j, SpacesEnd(t, j + 1));
    }
    if exists c: nat, k: nat :: LabelCut(t, name, c, k) {
      var c: nat, k: nat :| LabelCut(t, name, c, k);
      SpacesEndAt(t, |name|, c);
    }
  }

  /** A whitespace run from `i` that stops at a non-whitespace `t[c]` ends at `c`. */
  lemma {:induction false} SpacesEndAt(t: string, i: nat, c: nat)
    requires i <= c < |t| && !IsSpace(t[c])
    requires forall m :: i <= m < c ==> IsSpace(t[m])
    ensures SpacesEnd(t, i) == c
    decreases c - i
  {
    if i < c {
      SpacesEndAt(t, i + 1, c);
    }
  }

  /** The first label of `labels` (in order, as alternation tries them) that
      matches at the start of `t`, and the position after it. */
  function AfterFirstLabel(t: string, labels: seq<string>): (r: Option<nat>)
    ensures r.Some? ==> 0 < r.value <= |t|
    decreases |labels|
  {
    if labels == [] then None
    else
      match AfterLabel(t, labels[0])
      case Some(k) => Some(k)
      case None => AfterFirstLabel(t, labels[1..])
  }

  /** `stripLeadingRolePrefixes`: trim, drop one leading role label with its
      colon, trim again. */
  function StripLeadingRolePrefixes(s: string): (r: string)
    ensures Trimmed(r)
    ensures |r| <= |s|
  {
    Trim(RemoveLabel(Trim(s), RoleLabels))
  }

  /** Stripping only removes characters, so it keeps the character-wise shapes. */
  lemma StripKeepsShapes(s: string)
    ensures OnlyPlainSpaces(s) ==> OnlyPlainSpaces(StripLeadingRolePrefixes(s))
    ensures NoZwsp(s) ==> NoZwsp(StripLeadingRolePrefixes(s))
  {
    LabelRemovalKeepsShapes(s, RoleLabels);
  }

  lemma LabelRemovalKeepsShapes(s: string, labels: seq<string>)
    ensures OnlyPlainSpaces(s) ==> OnlyPlainSpaces(Trim(RemoveLabel(Trim(s), labels)))
    ensures NoZwsp(s) ==> NoZwsp(Trim(RemoveLabel(Trim(s), labels)))
  {
    var t := Trim(s);
    var u := RemoveLabel(t, labels);
    TrimKeepsShapes(s);
    SuffixShapes(t, u);
    TrimKeepsShapes(u);
  }

  /** `t` without its first matching label, or `t` when none matches. */
  function RemoveLabel(t: string, labels: seq<string>): (u: string)
    ensures |u| <= |t| && u == t[|t| - |u|..]
  {
    match AfterFirstLabel(t, labels) case Some(k) => t[k..] case None => t
  }

  /** When a label matches, the label, its colon and surrounding whitespace
      are removed, so the result is strictly shorter than the trimmed input;
      when none matches, the result is the trimmed input. */
  lemma StripRemovesOnlyALabel(s: string)
    ensures AfterFirstLabel(Trim(s), RoleLabels).None? <==> StripLeadingRolePrefixes(s) == Trim(s)
    ensures AfterFirstLabel(Trim(s), RoleLabels).Some? ==> |StripLeadingRolePrefixes(s)| < |Trim(s)|
  {
    var t := Trim(s);
    match AfterFirstLabel(t, RoleLabels)
    case Some(k) => assert |Trim(t[k..])| < |t|;
    case None => TrimOfTrimmed(t);
  }

  /** The stripping is conservative: text without a colon is never stripped. */
  lemma StripNeedsAColon(s: string)
    requires NoColon(s)
    ensures StripLeadingRolePrefixes(s) == Trim(s)
  {
    LabelRemovalNeedsAColon(s, RoleLabels);
  }

  lemma LabelRemovalNeedsAColon(s: string, labels: seq<string>)
    requires NoColon(s)
    ensures Trim(RemoveLabel(Trim(s), labels)) == Trim(s)
  {
    TrimKeepsShapes(s);
    NoColonNoLabel(Trim(s), labels);
    TrimOfTrimmed(Trim(s));
  }

  /** A label is only removed together with a colon. */
  lemma {:induction false} NoColonNoLabel(t: string, labels: seq<string>)
    requires NoColon(t)
    ensures AfterFirstLabel(t, labels).None?
    decreases |labels|
  {
    if labels != [] {
      NoColonNoMatch(t, labels[0]);
      NoColonNoLabel(t, labels[1..]);
    }
  }

  lemma NoColonNoMatch(t: string, name: string)
    requires NoColon(t)
    ensures AfterLabel(t, name).None?
  {
  }

  /** Labels that do not match are skipped in order. */
  lemma {:induction false} SkipUnmatchedLabels(t: string, labels: seq<string>, m: nat)
    requires m <= |labels|
    requires forall k :: 0 <= k < m ==> AfterLabel(t, labels[k]).None?
    ensures AfterFirstLabel(t, labels) == AfterFirstLabel(t, labels[m..])
    decreases m
  {
    if m > 0 {
      assert forall k :: 0 <= k < m - 1 ==> labels[1..][k] == labels[k + 1];
      SkipUnmatchedLabels(t, labels[1..], m - 1);
      assert labels[1..][m - 1..] == labels[m..];
    }
  }

  /** As in a regular-expression alternation, the first label (in the
      source's order) that matches decides what is removed. */
  lemma StripUsesFirstMatchingLabel(s: string, k: nat)
    requires k < |RoleLabels|
    requires forall j :: 0 <= j < k ==> AfterLabel(Trim(s), RoleLabels[j]).None?
    requires AfterLabel(Trim(s), RoleLabels[k]).Some?
    ensures StripLeadingRolePrefixes(s) == Trim(Trim(s)[AfterLabel(Trim(s), RoleLabels[k]).value..])
  {
    SkipUnmatchedLabels(Trim(s), RoleLabels, k);
    assert RoleLabels[k..][0] == RoleLabels[k];
  }

  // ---------------------------------------------------------------------
  // Previews and search text

  /** The text both the preview and the search text are cut from. */
  function StrippedText(raw: string): string {
    StripLeadingRolePrefixes(NormalizeText(raw))
  }

  lemma StrippedTextNormalized(raw: string)
    ensures Normalized(StrippedText(raw))
  {
    NormalizeTextShape(raw);
    StripKeepsShapes(NormalizeText(raw));
  }

  /** The preview cut from an already stripped text `t`: empty exactly when
      `t` is, `t` itself when it has at most 90 characters, else its first 90
      characters and an ellipsis; never longer than 91 characters. */
  function PreviewOf(t: string): (p: string)
    ensures p == [] <==> t == []
    ensures |p| <= PreviewLength + 1
    ensures |t| <= PreviewLength ==> p == t
    ensures |t| > PreviewLength ==> |p| == PreviewLength + 1 && p[..PreviewLength] == t[..PreviewLength] && p[PreviewLength] == Ellipsis
    ensures Trimmed(t) && OnlyPlainSpaces(t) ==> Trimmed(p) && OnlyPlainSpaces(p)
  {
    if t == [] then []
    else if |t| > PreviewLength then
      var p := t[..PreviewLength] + [Ellipsis];
      assert forall i :: 0 <= i < PreviewLength ==> p[i] == t[i];
      p
    else t
  }

  /** `pickPreviewFromText`: normalise, strip the role label, cut to 90
      characters plus an ellipsis. */
  function PickPreviewFromText(text: string): (p: string)
    ensures p == [] <==> StrippedText(text) == []
    ensures |p| <= PreviewLength + 1
    ensures Trimmed(p) && OnlyPlainSpaces(p)
  {
    StrippedTextNormalized(text);
    PreviewOf(StrippedText(text))
  }

  datatype SearchScope = PreviewScope | PrefixScope | FullScope

  /** `Math.max(min, Math.min(max, n))`. */
  function Clamp(n: int, lo: int, hi: int): (r: int)
    ensures lo <= hi ==> lo <= r <= hi
    ensures lo <= n <= hi ==> r == n
    ensures n < lo ==> r == lo
    ensures lo <= hi < n ==> r == hi
    ensures hi < lo ==> r == lo
  {
    var m := if hi < n then hi else n;
    if lo < m then m else lo
  }

  const PrefixMin: int := 100
  const PrefixMax: int := 20000

  /** The search text cut from an already stripped text `t`: a prefix of `t`,
      empty exactly when `t` is, the whole of `t` for "full",
      `min(|t|, clamp(prefixLength, 100, 20000))` characters for "prefix" and
      `min(|t|, 90)` characters for "preview". */
  function SearchTextOf(t: string, scope: SearchScope, prefixLength: int): (r: string)
    ensures |r| <= |t| && r == t[..|r|]
    ensures r == [] <==> t == []
    ensures scope == FullScope ==> r == t
    ensures scope == PrefixScope ==> |r| == Min(|t|, Clamp(prefixLength, PrefixMin, PrefixMax))
    ensures scope == PreviewScope ==> |r| == Min(|t|, PreviewLength)
  {
    if t == [] then []
    else if scope == FullScope then t
    else
      var n := if scope == PrefixScope then Clamp(prefixLength, PrefixMin, PrefixMax) else PreviewLength;
      if |t| > n then t[..n] else t
  }

  /** `buildSearchTextFromRaw`, with the two settings it reads passed in. */
  function BuildSearchTextFromRaw(raw: string, scope: SearchScope, prefixLength: int): (r: string)
    ensures r == [] <==> StrippedText(raw) == []
    ensures |r| <= |StrippedText(raw)| && r == StrippedText(raw)[..|r|]
  {
    SearchTextOf(StrippedText(raw), scope, prefixLength)
  }

  /** With the "preview" scope the search text is the preview without its
      ellipsis. */
  lemma PreviewScopeMatchesPreview(t: string, prefixLength: int)
    ensures var p := PreviewOf(t);
      SearchTextOf(t, PreviewScope, prefixLength) == if |p| > PreviewLength then p[..PreviewLength] else p
  {
  }
}
