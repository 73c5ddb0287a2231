/**
 * The typed client of the dog image API (client/api.py): the URL parser that
 * derives breed and sub-breed from an image URL, the decoding of the two
 * endpoints' JSON bodies into records, and the choice of endpoint made by
 * `DogImage.random`. The HTTP calls themselves are not modelled: a decoded
 * response body is an input.
 */
module DogApi {
  import opened Wrappers
  import opened Text

  /** The path segment that introduces the slug in an image URL. */
  const Marker: string := "/breeds/"

  /** Breed and optional sub-breed, as `_parse_url` returns them. */
  datatype BreedInfo = BreedInfo(breed: string, subBreed: Option<string>)

  /** An image record: the URL as received and the breed data derived from it. */
  datatype DogImage = DogImage(url: string, breed: string, subBreed: Option<string>)

  /**
   * The candidate slug after a marker at `i`: everything up to the next `/`
   * or, when there is none, up to the end of the URL.
   */
  function Segment(url: string, i: nat): (seg: string)
    requires OccursAt(url, Marker, i)
    ensures '/' !in seg
    ensures seg <= url[i + |Marker|..]
    ensures i + |Marker| + |seg| < |url| ==> url[i + |Marker| + |seg|] == '/'
  {
    url[i + |Marker|..FindChar(url, '/', i + |Marker|)]
  }

  /**
   * The pattern `/breeds/(?P<slug>[^/]+)/` matches at `i`: the marker, then a
   * non-empty run of non-`/` characters, then a `/`.
   */
  predicate MatchAt(url: string, i: nat)
    ensures MatchAt(url, i) <==> OccursAt(url, Marker, i) && exists j :: SlugEnd(url, i, j)
  {
    OccursAt(url, Marker, i) && (SegmentPattern(url, i); |Segment(url, i)| > 0 && i + |Marker| + |Segment(url, i)| < |url|)
  }

  /** The slug `[^/]+` after a marker at `i` runs up to a `/` at `j`: non-empty, slash-free, then that `/`. */
  predicate SlugEnd(url: string, i: nat, j: int)
  {
    i + |Marker| < j < |url| && url[j] == '/' && forall m :: i + |Marker| <= m < j ==> url[m] != '/'
  }

  /** The segment after a marker is a non-empty slug closed by a `/` exactly when some `/` ends such a slug. */
  lemma SegmentPattern(url: string, i: nat)
    requires OccursAt(url, Marker, i)
    ensures (|Segment(url, i)| > 0 && i + |Marker| + |Segment(url, i)| < |url|) <==> exists j :: SlugEnd(url, i, j)
  {
    var a := i + |Marker|;
    var k := FindChar(url, '/', a);
    assert Segment(url, i) == url[a..k];
    if exists j :: SlugEnd(url, i, j) {
      var j :| SlugEnd(url, i, j);
      assert url[a] != '/';
      assert k <= j;
    }
    if a < k < |url| {
      assert SlugEnd(url, i, k);
    }
  }

  /** `re.search`: the leftmost position at or after `from` where the pattern matches. */
  function Search(url: string, from: nat): (r: Option<nat>)
    requires from <= |url|
    ensures r.Some? ==> from <= r.value && MatchAt(url, r.value)
    ensures r.Some? ==> forall m :: from <= m < r.value ==> !MatchAt(url, m)
    ensures r.None? ==> forall m :: from <= m ==> !MatchAt(url, m)
    decreases |url| - from
  {
    if from == |url| then None
    else if MatchAt(url, from) then Some(from)
    else Search(url, from + 1)
  }

  /** Positions where the pattern does not match are skipped: the search goes on past them. */
  lemma {:induction false} SearchSkip(url: string, from: nat, to: nat)
    requires from <= to <= |url|
    requires forall m :: from <= m < to ==> !MatchAt(url, m)
    ensures Search(url, from) == Search(url, to)
    decreases (to as int) - from
  {
    if from < to {
      assert !MatchAt(url, from);
      assert Search(url, from) == Search(url, from + 1);
      SearchSkip(url, from + 1, to);
    }
  }

  /** `slug.split("-", 1)`: the part before the first hyphen, and the rest if there is a hyphen. */
  function SplitSlug(slug: string): (r: BreedInfo)
    ensures r.breed <= slug && '-' !in r.breed
    ensures r.subBreed.None? <==> '-' !in slug
    ensures r.subBreed.None? ==> r.breed == slug
    ensures r.subBreed.Some? ==> slug == r.breed + "-" + r.subBreed.value
  {
    BreedInfo(Before(slug, '-'), After(slug, '-'))
  }

  /** `DogImage._parse_url`: never fails; `("", None)` when the pattern does not match. */
  function ParseUrl(url: string): (r: BreedInfo)
    ensures '-' !in r.breed && '/' !in r.breed
    ensures r.subBreed.Some? ==> '/' !in r.subBreed.value
  {
    match Search(url, 0)
    case None => BreedInfo("", None)
    case Some(k) =>
      SplitSlug(Segment(url, k))
  }

  /** The leftmost match decides the result; earlier occurrences of the marker that do not match are skipped. */
  lemma ParseUrlLeftmost(url: string, k: nat)
    requires MatchAt(url, k)
    requires forall m :: 0 <= m < k ==> !MatchAt(url, m)
    ensures ParseUrl(url) == SplitSlug(Segment(url, k))
  {
    assert Search(url, 0) == Some(k);
  }

  /** After a marker, a slash-free slug closed by a slash is the segment. */
  lemma SegmentOnSlug(pre: string, slug: string, post: string)
    requires '/' !in slug
    ensures OccursAt(pre + Marker + slug + "/" + post, Marker, |pre|)
    ensures Segment(pre + Marker + slug + "/" + post, |pre|) == slug
  {
    var url := pre + Marker + slug + "/" + post;
    var a := |pre| + |Marker|;
    assert url[|pre|..a] == Marker;
    assert url[a..a + |slug|] == slug;
    forall m | a <= m < a + |slug| ensures url[m] != '/' {
      assert url[m] == slug[m - a];
    }
    assert url[a + |slug|] == '/';
    FindCharIs(url, '/', a, a + |slug|);
  }

  /** A marker followed by a non-empty slash-free slug and a slash matches, with that slug. */
  lemma MatchOnSlug(pre: string, slug: string, post: string)
    requires |slug| > 0 && '/' !in slug
    ensures MatchAt(pre + Marker + slug + "/" + post, |pre|)
    ensures Segment(pre + Marker + slug + "/" + post, |pre|) == slug
  {
    SegmentOnSlug(pre, slug, post);
  }

  /**
   * A prefix without the letter `b` hides no earlier occurrence of the marker,
   * since every occurrence has a `b` right after its opening slash.
   */
  lemma MarkerNotBefore(pre: string, tail: string)
    requires 'b' !in pre
    ensures forall i :: 0 <= i < |pre| ==> !OccursAt(pre + Marker + tail, Marker, i)
  {
    var url := pre + Marker + tail;
    forall i | 0 <= i < |pre| ensures !OccursAt(url, Marker, i) {
      if i + 1 < |pre| {
        assert url[i + 1] == pre[i + 1] != Marker[1];
      } else {
        assert url[i + 1] == Marker[0] != Marker[1];
      }
    }
  }

  /** `.../breeds/{b}/...` gives breed `b` and no sub-breed. */
  lemma ParseUrlBreedOnly(pre: string, slug: string, post: string)
    requires |slug| > 0 && '/' !in slug && '-' !in slug
    requires forall i :: 0 <= i < |pre| ==> !MatchAt(pre + Marker + slug + "/" + post, i)
    ensures ParseUrl(pre + Marker + slug + "/" + post) == BreedInfo(slug, None)
  {
    MatchOnSlug(pre, slug, post);
    ParseUrlLeftmost(pre + Marker + slug + "/" + post, |pre|);
    SplitNone(slug, '-');
  }

  /**
   * `.../breeds/{b}-{s}/...` gives breed `b` and sub-breed `s`: everything
   * after the first hyphen, which may hold further hyphens or be empty.
   */
  lemma ParseUrlWithSubBreed(pre: string, b: string, s: string, post: string)
    requires '/' !in b && '-' !in b && '/' !in s
    requires forall i :: 0 <= i < |pre| ==> !MatchAt(pre + Marker + (b + "-" + s) + "/" + post, i)
    ensures ParseUrl(pre + Marker + (b + "-" + s) + "/" + post) == BreedInfo(b, Some(s))
  {
    var slug := b + "-" + s;
    assert '/' !in slug by {
      assert forall m :: 0 <= m < |slug| ==> slug[m] == (if m < |b| then b[m] else if m == |b| then '-' else s[m - |b| - 1]);
    }
    MatchOnSlug(pre, slug, post);
    ParseUrlLeftmost(pre + Marker + slug + "/" + post, |pre|);
    SplitJoin(b, '-', s);
  }

  /** The parser yields `("", None)` exactly when the pattern matches nowhere. */
  lemma ParseUrlNoMatch(url: string)
    ensures ParseUrl(url) == BreedInfo("", None) <==> forall i :: !MatchAt(url, i)
  {
    match Search(url, 0)
    case None =>
    case Some(k) =>
      var slug := Segment(url, k);
      if Before(slug, '-') == "" {
        assert slug[0] == '-';
      }
  }

  /**
   * `DogImage._out_image`: the URL is the body's `message` field, kept as it
   * is, and breed and sub-breed are parsed from it; a body without `message`
   * fails (`None`), as the source's `KeyError` does.
   */
  function OutImage(body: map<string, string>): (r: Option<DogImage>)
    ensures r.Some? <==> "message" in body
    ensures r.Some? ==> r.value.url == body["message"]
    ensures r.Some? ==> BreedInfo(r.value.breed, r.value.subBreed) == ParseUrl(r.value.url)
  {
    if "message" in body then
      var url := body["message"];
      var info := ParseUrl(url);
      Some(DogImage(url, info.breed, info.subBreed))
    else
      None
  }

  /** The two image endpoints of the remote API. */
  datatype Endpoint = AnyBreed | ByBreed(breed: string)

  /** The route each endpoint is bound to, relative to the API's base address. */
  function Path(e: Endpoint): (r: string)
    ensures |r| > 7 && r[..6] == "/breed"
    ensures r[6] == '/' <==> e.ByBreed?
    ensures e.ByBreed? ==> r == "/breed/" + e.breed + "/images/random"
    ensures e.AnyBreed? ==> r == "/breeds/image/random"
  {
    match e
    case AnyBreed => "/breeds/image/random"
    case ByBreed(b) => "/breed/" + b + "/images/random"
  }

  /** Distinct endpoints are bound to distinct routes, so the route determines the breed asked for. */
  lemma PathInjective(e1: Endpoint, e2: Endpoint)
    requires Path(e1) == Path(e2)
    ensures e1 == e2
  {
    match (e1, e2)
    case (AnyBreed, AnyBreed) =>
    case (AnyBreed, ByBreed(b)) =>
    case (ByBreed(b), AnyBreed) =>
    case (ByBreed(b1), ByBreed(b2)) =>
      assert |b1| == |b2|;
      assert b1 == Path(e1)[7..7 + |b1|] == Path(e2)[7..7 + |b2|] == b2;
  }

  /**
   * The dispatch in `DogImage.random`: a truthy breed (present and non-empty)
   * selects the breed-scoped endpoint for that breed, anything else the
   * global one.
   */
  function RandomEndpoint(breed: Option<string>): (e: Endpoint)
    ensures e.ByBreed? <==> breed.Some? && breed.value != ""
    ensures e.ByBreed? ==> e.breed == breed.value
  {
    if breed.Some? && breed.value != "" then ByBreed(breed.value) else AnyBreed
  }

  /**
   * `DogImage.random`: ask the chosen endpoint, given here as `respond`, which
   * stands for the HTTP call and the JSON decoding, and decode its body into
   * a record.
   */
  function Random(breed: Option<string>, respond: Endpoint -> map<string, string>): (r: Option<DogImage>)
    ensures var body := respond(RandomEndpoint(breed));
      && (r.Some? <==> "message" in body)
      && (r.Some? ==> r.value.url == body["message"])
      && (r.Some? ==> BreedInfo(r.value.breed, r.value.subBreed) == ParseUrl(r.value.url))
  {
    OutImage(respond(RandomEndpoint(breed)))
  }

  /**
   * `Breed._get_breeds_out`: the breed catalog, a map from breed to its list
   * of sub-breeds, is the body's `message` field as received; a body without
   * it fails (`None`).
   */
  function BreedsOut(body: map<string, map<string, seq<string>>>): (r: Option<map<string, seq<string>>>)
    ensures r.Some? <==> "message" in body
    ensures r.Some? ==> r.value == body["message"]
  {
    if "message" in body then Some(body["message"]) else None
  }
}
