/**
 Single-page navigation of script.js: which page and which navigation links
 carry the `active` class after a switch, and how the address fragment is
 read back into a page identifier.
 */
module Navigation {

  /** A page region: its element id and whether it carries `active`. */
  datatype Page = Page(id: string, active: bool)

  /** A navigation link: its `data-target` and whether it carries `active`. */
  datatype NavLink = NavLink(target: string, active: bool)

  /** The page identifier used when the fragment names none. */
  const Home: string := "home"

  /** Page `k` is the first page, in document order, whose id is `t`: the
      one element that an id lookup for `t` returns. An empty id is no id
      at all, so a lookup for `""` finds nothing. */
  predicate FirstWithId(ps: seq<Page>, k: nat, t: string)
    requires k < |ps|
  {
    t != "" && ps[k].id == t && forall j :: 0 <= j < k ==> ps[j].id != t
  }

  /** Page ids are pairwise distinct. */
  predicate UniqueIds(ps: seq<Page>)
  {
    forall i, j :: 0 <= i < j < |ps| ==> ps[i].id != ps[j].id
  }

  /** Every page with `active` cleared. */
  function Deactivated(ps: seq<Page>): (r: seq<Page>)
    ensures |r| == |ps|
    ensures forall k :: 0 <= k < |ps| ==> r[k].id == ps[k].id && !r[k].active
  {
    if ps == [] then [] else [ps[0].(active := false)] + Deactivated(ps[1..])
  }

  /** The pages after a switch to `t`: every page is cleared and then the
      page an id lookup for `t` finds, if any, is activated. */
  function ActivatePage(ps: seq<Page>, t: string): (r: seq<Page>)
    ensures |r| == |ps|
    ensures forall k :: 0 <= k < |ps| ==> r[k].id == ps[k].id
    ensures forall k :: 0 <= k < |ps| ==> (r[k].active <==> FirstWithId(ps, k, t))
  {
    if ps == [] then []
    else if t != "" && ps[0].id == t then [ps[0].(active := true)] + Deactivated(ps[1..])
    else
      var rest := ActivatePage(ps[1..], t);
      assert forall k :: 1 <= k < |ps| ==> (FirstWithId(ps, k, t) <==> FirstWithId(ps[1..], k - 1, t));
      [ps[0].(active := false)] + rest
  }

  /** The links after a switch to `t`: exactly those whose target is `t`
      are active, whatever their earlier state. */
  function HighlightLinks(ls: seq<NavLink>, t: string): (r: seq<NavLink>)
    ensures |r| == |ls|
    ensures forall k :: 0 <= k < |ls| ==> r[k].target == ls[k].target
    ensures forall k :: 0 <= k < |ls| ==> (r[k].active <==> ls[k].target == t)
  {
    if ls == [] then [] else [ls[0].(active := ls[0].target == t)] + HighlightLinks(ls[1..], t)
  }

  /** At most one page is active after a switch, whether or not ids are
      unique. */
  lemma AtMostOneActive(ps: seq<Page>, t: string)
    ensures forall i, j :: 0 <= i < |ps| && 0 <= j < |ps| && ActivatePage(ps, t)[i].active && ActivatePage(ps, t)[j].active ==> i == j
  {
  }

  /** With unique ids, a page is active after a switch exactly when its id
      is the target and the target is not empty. */
  lemma ActiveIffTarget(ps: seq<Page>, t: string)
    requires UniqueIds(ps)
    ensures forall k :: 0 <= k < |ps| ==> (ActivatePage(ps, t)[k].active <==> t != "" && ps[k].id == t)
  {
  }

  /** Switching to a target that some page has as its id leaves a page at
      or before it active; with `AtMostOneActive`, exactly one page. */
  lemma {:induction false} KnownTargetActivates(ps: seq<Page>, t: string, k: nat)
    requires k < |ps| && ps[k].id == t
    ensures t != "" ==> exists i :: 0 <= i <= k && ActivatePage(ps, t)[i].active
  {
    if t == "" {
      return;
    }
    if ps[0].id == t {
      assert FirstWithId(ps, 0, t);
      assert ActivatePage(ps, t)[0].active;
    } else {
      KnownTargetActivates(ps[1..], t, k - 1);
      var i :| 0 <= i <= k - 1 && ActivatePage(ps[1..], t)[i].active;
      assert FirstWithId(ps[1..], i, t);
      assert FirstWithId(ps, i + 1, t);
      assert ActivatePage(ps, t)[i + 1].active;
    }
  }

  /** Switching to a target that no page has as its id leaves no page
      active at all: the switch is not a no-op. */
  lemma UnknownTargetBlanks(ps: seq<Page>, t: string)
    requires forall k :: 0 <= k < |ps| ==> ps[k].id != t
    ensures forall k :: 0 <= k < |ps| ==> !ActivatePage(ps, t)[k].active
  {
  }

  /** The empty target names no page, even a page without an id: a switch
      to it leaves no page active. */
  lemma EmptyTargetBlanks(ps: seq<Page>)
    ensures forall k :: 0 <= k < |ps| ==> !ActivatePage(ps, "")[k].active
  {
  }

  /** Activating the same target twice is the same as once. */
  lemma ActivatePageIdempotent(ps: seq<Page>, t: string)
    ensures ActivatePage(ActivatePage(ps, t), t) == ActivatePage(ps, t)
  {
  }

  /** Highlighting the same target twice is the same as once. */
  lemma HighlightLinksIdempotent(ls: seq<NavLink>, t: string)
    ensures HighlightLinks(HighlightLinks(ls, t), t) == HighlightLinks(ls, t)
  {
  }

  /** The position of the first `c` in `s`, or `|s|` when there is none. */
  function IndexOf(s: string, c: char): (k: nat)
    ensures k <= |s|
    ensures k < |s| ==> s[k] == c
    ensures forall j :: 0 <= j < k ==> s[j] != c
  {
    if s == [] then 0
    else if s[0] == c then 0
    else 1 + IndexOf(s[1..], c)
  }

  /** `s` with its first `c` removed, as a string replace with a one-char
      pattern does; `s` itself when it holds no `c`. */
  function RemoveFirst(s: string, c: char): (r: string)
    ensures IndexOf(s, c) == |s| ==> r == s
    ensures IndexOf(s, c) < |s| ==> r == s[..IndexOf(s, c)] + s[IndexOf(s, c) + 1..]
  {
    if s == [] then []
    else if s[0] == c then s[1..]
    else
      var rest := RemoveFirst(s[1..], c);
      assert s == [s[0]] + s[1..];
      [s[0]] + rest
  }

  /** The page identifier a fragment names: the fragment with its first `#`
      removed, or `Home` when nothing is left. */
  function Route(hash: string): (r: string)
    ensures r != ""
    ensures RemoveFirst(hash, '#') != "" ==> r == RemoveFirst(hash, '#')
    ensures hash == "" || hash == "#" ==> r == Home
  {
    var h := RemoveFirst(hash, '#');
    if h == "" then Home else h
  }

  /** Reading back a fragment written as `"#" + t` gives `t` again, even
      when `t` itself holds a `#`; an empty `t` reads back as `Home`. */
  lemma RouteOfFragment(t: string)
    ensures Route("#" + t) == if t == "" then Home else t
  {
  }

  /** Only the first `#` is removed: a fragment without a leading `#` keeps
      the part before its first `#`. */
  lemma RouteKeepsLaterHashes(a: string, b: string)
    requires '#' !in a && a + b != ""
    ensures Route(a + "#" + b) == a + b
  {
    var s := a + "#" + b;
    assert IndexOf(s, '#') == |a| by {
      assert s[|a|] == '#';
      forall j | 0 <= j < |a| ensures s[j] != '#' { assert s[j] == a[j]; }
    }
    assert s[..|a|] == a && s[|a| + 1..] == b;
  }
}
