/** What the outline engine reads from the host page, as plain inputs.

    The engine queries the DOM through site-specific selectors. The model
    replaces each query by its answer: an element's `textContent`, the raw
    text the site's extractor returns for it, the role the site's
    `roleForMessage` assigns, and the handful of yes/no selector tests the
    engine makes. */
module Page {

  import opened Common

  datatype Role = User | Assistant | System | Unknown

  /** The site strategy picked from `location.host`. */
  datatype Site = ChatGPT | DeepSeek | Tongyi | Doubao | Generic

  datatype Dom = Dom(
    /** `el.textContent || ""`. */
    textContent: Elem -> string,
    /** `extractRawTextForTurn(el, role)` with the element's own role. */
    rawText: Elem -> string,
    /** `site.roleForMessage(el)`. */
    role: Elem -> Role,
    /** `el.closest("#chatoutline-root")` is non-null: the element is part of
        the outline panel itself. */
    inPanel: Elem -> bool,
    /** `isInsideNonConversationArea(el)`: inside nav, aside, header, footer
        or a navigation, banner or contentinfo landmark. */
    inChrome: Elem -> bool,
    /** The site's message-wrapper test holds for the element: on DeepSeek
        its selector matches the element or the element has a
        `div.ds-message` descendant; on Tongyi and Doubao the selector matches
        the element or one of its ancestors. This is what lets a message
        shorter than 10 characters through. */
    wrapperMatch: Elem -> bool,
    /** `a.contains(b)` for two distinct elements: `b` is a descendant of `a`. */
    contains: (Elem, Elem) -> bool,
    /** `el.querySelector("pre, code")` is non-null. */
    hasCode: Elem -> bool
  )

  /** The containment relation of a document tree is a strict partial order
      on distinct elements. */
  ghost predicate TreeOrder(d: Dom) {
    (forall a :: !d.contains(a, a)) &&
    (forall a, b, c :: d.contains(a, b) && d.contains(b, c) ==> d.contains(a, c))
  }
}
