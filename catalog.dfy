/**
 The project catalog, the six placeholder gradients and the projection of a
 project record onto a summary card (script.js, createCard and the filter
 that renderFeatured applies to the catalog).
 */
module Catalog {

  /** One entry of the in-memory project catalog. Image references are
      strings; the empty string stands for "no image". */
  datatype Project = Project(
    id: string,
    title: string,
    subtitle: string,
    thumbnail: string,
    heroImage: string,
    description: string,
    pdfUrl: string,
    featured: bool)

  /** A diagonal linear gradient through the given colour stops. */
  function LinearGradient(stops: string): string
  {
    "linear-gradient(135deg, " + stops + ")"
  }

  /** The fallback backgrounds, in the order the source lists them. */
  const Gradients: seq<string> := [
    LinearGradient("#0d1b3e 0%, #1a2d5a 50%, #0f1f44 100%"),
    LinearGradient("#112240 0%, #1d3461 50%, #152a50 100%"),
    LinearGradient("#0a1929 0%, #16304d 50%, #0d1f38 100%"),
    LinearGradient("#142850 0%, #1f3c6e 50%, #183460 100%"),
    LinearGradient("#0b1a30 0%, #1a3050 50%, #0e2040 100%"),
    LinearGradient("#101d35 0%, #1b2f55 50%, #132545 100%")
  ]

  /** Whether a background is one of the fallback gradients. */
  predicate IsFallback(bg: string)
  {
    bg in Gradients
  }

  /** The CSS background that shows an image, centred and covering. */
  function CoverUrl(image: string): string
  {
    "url('" + image + "') center/cover"
  }

  /** The background of a card thumbnail or of the modal hero: the image when
      there is one, otherwise the gradient picked by the record's position.
      A background is a gradient exactly when no image was given, so the
      background alone tells whether the fallback was used. */
  function Background(image: string, i: nat): (r: string)
    ensures image == "" ==> r == Gradients[i % |Gradients|]
    ensures image != "" ==> r == CoverUrl(image)
    ensures IsFallback(r) <==> image == ""
  {
    if image != "" then
      var r := CoverUrl(image);
      assert r[0] == 'u';
      assert forall g | g in Gradients :: g[0] == 'l';
      r
    else
      Gradients[i % |Gradients|]
  }

  /** The fallback gradients repeat with period six: positions that differ
      by a whole cycle get the same background. */
  lemma BackgroundCycles(i: nat)
    ensures Background("", i + |Gradients|) == Background("", i)
  {
    assert |Gradients| == 6;
    assert (i + 6) % 6 == i % 6;
  }

  /** A summary tile. Activating it opens the modal for `project` at
      `index`, the values the tile was created from. */
  datatype Card = Card(
    background: string,
    title: string,
    subtitle: string,
    project: Project,
    index: nat)

  /** The tile for project `p` rendered at position `i` of its list. */
  function CreateCard(p: Project, i: nat): (c: Card)
    ensures c.project == p && c.index == i
    ensures c.title == p.title && c.subtitle == p.subtitle
    ensures c.background == Background(p.thumbnail, i)
    ensures p.thumbnail == "" ==> c.background == Gradients[i % |Gradients|]
    ensures IsFallback(c.background) <==> p.thumbnail == ""
    ensures p.thumbnail != "" ==> c.background == CoverUrl(p.thumbnail)
  {
    Card(Background(p.thumbnail, i), p.title, p.subtitle, p, i)
  }

  /** The tiles for a list of projects, tile `k` built from the `k`-th
      record with index `k`. */
  function Cards(ps: seq<Project>): (r: seq<Card>)
    ensures |r| == |ps|
    ensures forall k :: 0 <= k < |r| ==> r[k] == CreateCard(ps[k], k)
  {
    seq(|ps|, k requires 0 <= k < |ps| => CreateCard(ps[k], k))
  }

  /** The featured records, in catalog order. */
  function Featured(ps: seq<Project>): (r: seq<Project>)
    ensures |r| <= |ps|
    ensures forall p :: p in r <==> p in ps && p.featured
  {
    if ps == [] then []
    else if ps[0].featured then [ps[0]] + Featured(ps[1..])
    else Featured(ps[1..])
  }

  /** Filtering commutes with concatenation: the featured list keeps the
      catalog's order. */
  lemma {:induction false} FeaturedAppend(a: seq<Project>, b: seq<Project>)
    ensures Featured(a + b) == Featured(a) + Featured(b)
  {
    if a == [] {
      assert a + b == b;
    } else {
      assert (a + b)[0] == a[0];
      assert (a + b)[1..] == a[1..] + b;
      FeaturedAppend(a[1..], b);
    }
  }

  /** A featured record at catalog position `j` sits in the featured list at
      the number of featured records before it, so its tile on the home page
      is indexed by that number and not by `j`. */
  lemma FeaturedPosition(ps: seq<Project>, j: nat)
    requires j < |ps| && ps[j].featured
    ensures |Featured(ps[..j])| < |Featured(ps)|
    ensures Featured(ps)[|Featured(ps[..j])|] == ps[j]
    ensures Cards(Featured(ps))[|Featured(ps[..j])|] == CreateCard(ps[j], |Featured(ps[..j])|)
  {
    assert ps == ps[..j] + ([ps[j]] + ps[j + 1..]);
    FeaturedAppend(ps[..j], [ps[j]] + ps[j + 1..]);
    assert Featured([ps[j]] + ps[j + 1..]) == [ps[j]] + Featured(ps[j + 1..]) by {
      assert ([ps[j]] + ps[j + 1..])[1..] == ps[j + 1..];
    }
  }

  /** The first `n` records are featured and the rest are not, as in the
      shipped catalog. */
  predicate FeaturedFirst(ps: seq<Project>, n: nat)
  {
    && n <= |ps|
    && (forall k :: 0 <= k < n ==> ps[k].featured)
    && (forall k :: n <= k < |ps| ==> !ps[k].featured)
  }

  /** When the catalog lists its featured records first, the featured list
      is the head of the catalog. */
  lemma FeaturedPrefix(ps: seq<Project>, n: nat)
    requires FeaturedFirst(ps, n)
    ensures Featured(ps) == ps[..n]
  {
    var head, tail := ps[..n], ps[n..];
    assert ps == head + tail;
    FeaturedAppend(head, tail);
    AllFeatured(head);
    NoneFeatured(tail);
    assert Featured(ps) == head + [];
  }

  /** Under the same ordering, the home page shows the same tiles, with the
      same fallback backgrounds, as the head of the full listing. */
  lemma FeaturedCardsPrefix(ps: seq<Project>, n: nat)
    requires FeaturedFirst(ps, n)
    ensures Cards(Featured(ps)) == Cards(ps)[..n]
  {
    FeaturedPrefix(ps, n);
    CardsPrefix(ps, n);
  }

  /** The tiles of a prefix are the prefix of the tiles. */
  lemma CardsPrefix(ps: seq<Project>, n: nat)
    requires n <= |ps|
    ensures Cards(ps[..n]) == Cards(ps)[..n]
  {
  }

  lemma {:induction false} AllFeatured(ps: seq<Project>)
    requires forall k :: 0 <= k < |ps| ==> ps[k].featured
    ensures Featured(ps) == ps
  {
    if ps != [] {
      AllFeatured(ps[1..]);
    }
  }

  lemma {:induction false} NoneFeatured(ps: seq<Project>)
    requires forall k :: 0 <= k < |ps| ==> !ps[k].featured
    ensures Featured(ps) == []
  {
    if ps != [] {
      NoneFeatured(ps[1..]);
    }
  }
}
