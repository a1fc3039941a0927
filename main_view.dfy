/** The id helper of the main window's navigation buttons: a view's simple
    class name minus its "View" suffix, lower-cased, gives the CSS id of the
    button's icon. */
module MainView {
  import opened Wrappers

  const Suffix: string := "View"

  /** `t` occurs in `s` starting at index `i`. */
  predicate OccursAt(s: string, t: string, i: int) {
    0 <= i && i + |t| <= |s| && s[i..i + |t|] == t
  }

  /** `String.indexOf(t, from)`: the first index at or after `from` where
      `t` occurs, or -1. */
  function IndexFrom(s: string, t: string, from: nat): (r: int)
    decreases |s| - from
    ensures r == -1 || (from <= r && OccursAt(s, t, r))
    ensures forall j :: from <= j && (r == -1 || j < r) ==> !OccursAt(s, t, j)
  {
    if from + |t| > |s| then -1
    else if OccursAt(s, t, from) then from
    else IndexFrom(s, t, from + 1)
  }

  function IndexOf(s: string, t: string): (r: int)
    ensures r == -1 || OccursAt(s, t, r)
    ensures forall j :: 0 <= j && (r == -1 || j < r) ==> !OccursAt(s, t, j)
  {
    IndexFrom(s, t, 0)
  }

  /** `Character.toLowerCase` on the ASCII letters; every other character is
      kept. */
  function LowerChar(c: char): (r: char)
    ensures 'A' <= c <= 'Z' ==> 'a' <= r <= 'z' && r as int - c as int == 'a' as int - 'A' as int
    ensures !('A' <= c <= 'Z') ==> r == c
  {
    if 'A' <= c <= 'Z' then (c as int + 32) as char else c
  }

  function ToLower(s: string): (r: string)
    ensures |r| == |s| && forall i :: 0 <= i < |s| ==> r[i] == LowerChar(s[i])
  {
    seq(|s|, i requires 0 <= i < |s| => LowerChar(s[i]))
  }

  /** Why `viewId` throws: the first "View" is not at the end
      (IllegalArgumentException), or there is none and the name has exactly
      three characters, so the substring end is -1
      (StringIndexOutOfBoundsException). */
  datatype ViewIdError = NotEndingInView | NegativeSubstringEnd

  function ViewId(name: string): (r: Result<string, ViewIdError>)
    ensures r.Success? ==> |r.value| == |name| - |Suffix|
  {
    var suffixIdx := IndexOf(name, Suffix);
    if suffixIdx != |name| - |Suffix| then Failure(NotEndingInView)
    else if suffixIdx < 0 then Failure(NegativeSubstringEnd)
    else Success(ToLower(name[..suffixIdx]))
  }

  /** A name made of `prefix` and "View", with no earlier "View", yields the
      lower-cased prefix. */
  lemma ViewIdStripsSuffix(prefix: string)
    requires forall j :: 0 <= j < |prefix| ==> !OccursAt(prefix + Suffix, Suffix, j)
    ensures ViewId(prefix + Suffix) == Success(ToLower(prefix))
  {
    var name := prefix + Suffix;
    assert OccursAt(name, Suffix, |prefix|) by { assert name[|prefix|..|prefix| + 4] == Suffix; }
    assert name[..|prefix|] == prefix;
  }

  /** Conversely, a result means the name ends in its first "View", and the
      result is what precedes it, lower-cased. */
  lemma ViewIdSucceedsOnlyOnSuffix(name: string)
    requires ViewId(name).Success?
    ensures |name| >= |Suffix| && name[|name| - |Suffix|..] == Suffix
    ensures forall j :: 0 <= j < |name| - |Suffix| ==> !OccursAt(name, Suffix, j)
    ensures ViewId(name).value == ToLower(name[..|name| - |Suffix|])
  {
    assert OccursAt(name, Suffix, IndexOf(name, Suffix));
  }

  /** A "View" anywhere before the end makes the helper throw, even when
      the name also ends in "View". */
  lemma EarlierSuffixFails(name: string, j: int)
    requires 0 <= j < |name| - |Suffix| && OccursAt(name, Suffix, j)
    ensures ViewId(name) == Failure(NotEndingInView)
  {
  }

  lemma ViewFooViewFails()
    ensures ViewId("ViewFooView") == Failure(NotEndingInView)
  {
    EarlierSuffixFails("ViewFooView", 0);
  }

  /** A name without "View" never yields an id; with three characters it
      reaches the substring call and fails there. */
  lemma NoSuffixFails(name: string)
    requires forall j :: !OccursAt(name, Suffix, j)
    ensures ViewId(name).Failure?
    ensures ViewId(name) == Failure(NegativeSubstringEnd) <==> |name| == 3
  {
  }

  /** The id of a navigation button's icon; selected buttons carry
      "-active". */
  function NavGraphicId(viewName: string, selected: bool): (r: Result<string, ViewIdError>)
    ensures r.Success? <==> ViewId(viewName).Success?
  {
    match ViewId(viewName)
    case Success(id) => Success("image-nav-" + id + (if selected then "-active" else ""))
    case Failure(e) => Failure(e)
  }

  /** Selecting a button appends exactly "-active" to the id it had
      unselected. */
  lemma SelectedIdExtendsUnselected(viewName: string)
    requires ViewId(viewName).Success?
    ensures NavGraphicId(viewName, true).value == NavGraphicId(viewName, false).value + "-active"
    ensures NavGraphicId(viewName, false).value == "image-nav-" + ViewId(viewName).value
  {
  }

  /** The market button's icon, unselected and selected. */
  lemma MarketButtonIds()
    ensures NavGraphicId("MarketView", false) == Success("image-nav-market")
    ensures NavGraphicId("MarketView", true) == Success("image-nav-market-active")
  {
    NavIdOfPrefix("Market", "market", "MarketView", "image-nav-market");
    SelectedIdExtendsUnselected("MarketView");
    assert "image-nav-market" + "-active" == "image-nav-market-active";
  }

  /** Helper: a prefix with no 'V' cannot host an earlier "View", so the
      unselected icon id is "image-nav-" and the lower-cased prefix. */
  lemma NavIdOfPrefix(prefix: string, id: string, viewName: string, graphicId: string)
    requires forall i :: 0 <= i < |prefix| ==> prefix[i] != 'V'
    requires ToLower(prefix) == id && viewName == prefix + Suffix && graphicId == "image-nav-" + id
    ensures NavGraphicId(viewName, false) == Success(graphicId)
  {
    forall j | 0 <= j < |prefix|
      ensures !OccursAt(prefix + Suffix, Suffix, j)
    {
      assert (prefix + Suffix)[j] == prefix[j];
    }
    ViewIdStripsSuffix(prefix);
    assert "image-nav-" + id + "" == graphicId;
  }
}
