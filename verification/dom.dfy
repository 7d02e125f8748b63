/** The browser-automation handle, reduced to what the helpers observe of a
    rendered element: its text, whether it is displayed, whether it is enabled,
    and whether its reference has gone stale. */
module Dom {
  import opened Wrappers

  /** A located element. `stale` marks an element whose reference was invalidated
      by a re-render after it was located: the next click, text read or
      clickability wait on it raises `StaleElementReferenceException`.
      `isDisplayed` is answered from `displayed` and never fails; `enabled` is what
      `isEnabled` would answer. */
  datatype Element = Element(id: nat, text: string, displayed: bool, enabled: bool, stale: bool)

  /** The exceptions of the Selenium and Java runtime that the helpers meet. */
  datatype Error =
    | StaleElementReference
    | ElementNotInteractable
    | Timeout
    | NoSuchElement
    | IndexOutOfBounds
    | NumberFormat

  /** A plain `click()` goes through: the element is displayed and its reference valid. */
  predicate Interactable(e: Element) {
    e.displayed && !e.stale
  }

  /** `ExpectedConditions.elementToBeClickable` eventually holds: the element is
      visible and enabled. */
  predicate Clickable(e: Element) {
    Interactable(e) && e.enabled
  }

  /** `wait.until(ExpectedConditions.elementToBeClickable(e))` on a located element:
      it returns once the element is displayed and enabled, raises the stale-reference
      exception when the element has gone stale (the visibility check itself fails),
      and times out when the element stays hidden or disabled. */
  function AwaitClickable(e: Element): (r: Result<(), Error>)
    ensures r.Success? <==> Clickable(e)
    ensures r.Success? ==> Interactable(e)
    ensures r.Failure? ==> r.error == (if e.stale then StaleElementReference else Timeout)
  {
    if e.stale then Failure(StaleElementReference)
    else if !e.displayed || !e.enabled then Failure(Timeout)
    else Success(())
  }

  /** `WebElement.click()`: it does not look at `isEnabled`. */
  function Click(e: Element): (r: Result<(), Error>)
    ensures r.Success? <==> Interactable(e)
    ensures r.Failure? ==> r.error == (if e.stale then StaleElementReference else ElementNotInteractable)
  {
    if e.stale then Failure(StaleElementReference)
    else if !e.displayed then Failure(ElementNotInteractable)
    else Success(())
  }

  /** No element of the list has gone stale, so every text read succeeds. */
  predicate Readable(elements: seq<Element>) {
    forall i | 0 <= i < |elements| :: !elements[i].stale
  }

  /** `elements.stream().map(WebElement::getText)`: the texts in order, or the
      stale-reference exception of the first stale element. */
  function Texts(elements: seq<Element>): (r: Result<seq<string>, Error>)
    ensures r.Success? <==> Readable(elements)
    ensures r.Success? ==> r.value == TextOf(elements)
    ensures r.Failure? ==> r.error == StaleElementReference
  {
    if |elements| == 0 then Success([])
    else if elements[0].stale then Failure(StaleElementReference)
    else
      match Texts(elements[1..])
      case Failure(e) =>
        var i :| 0 <= i < |elements[1..]| && elements[1..][i].stale;
        assert elements[i + 1].stale;
        Failure(e)
      case Success(rest) =>
        var r := [elements[0].text] + rest;
        assert forall i | 1 <= i < |elements| :: r[i] == rest[i - 1] == elements[1..][i - 1].text;
        assert r == TextOf(elements);
        Success(r)
  }

  /** The texts of elements, in order, without the failure path (for elements read
      where staleness is not modelled): entry i is the text of element i. */
  function TextOf(elements: seq<Element>): (r: seq<string>)
    ensures |r| == |elements| && forall i | 0 <= i < |elements| :: r[i] == elements[i].text
    decreases |elements|
  {
    if |elements| == 0 then []
    else
      var rest := TextOf(elements[1..]);
      assert forall i | 1 <= i < |elements| :: elements[1..][i - 1] == elements[i];
      [elements[0].text] + rest
  }
}
