/**
 * The pure logic of app.py: the stats view's `extract_breed` and the breed
 * counts it charts, and the caption shown under a fetched image.
 */
module AppStats {
  import opened Wrappers
  import opened Text
  import opened DogApi
  import opened Favorites
  import opened ValueCounts

  /** `"/breeds/" in url`. */
  predicate HasMarker(url: string)
  {
    Find(url, Marker, 0).Some?
  }

  /** Index of the first marker occurrence. */
  function FirstMarker(url: string): (i: nat)
    requires HasMarker(url)
    ensures OccursAt(url, Marker, i)
    ensures forall m :: 0 <= m < i ==> !OccursAt(url, Marker, m)
  {
    Find(url, Marker, 0).value
  }

  /**
   * Where the split part that starts at `from` ends: at the next occurrence of
   * the marker, which opens with a `/`, or at the end of the URL.
   */
  function PartEnd(url: string, from: nat): (e: nat)
    requires from <= |url|
    ensures from <= e <= |url|
    ensures e < |url| ==> OccursAt(url, Marker, e) && url[e] == '/'
    ensures e == |url| ==> forall m :: from <= m ==> !OccursAt(url, Marker, m)
    ensures forall m :: from <= m < e ==> !OccursAt(url, Marker, m)
  {
    match Find(url, Marker, from)
    case Some(n) =>
      assert url[n..n + |Marker|] == Marker;
      n
    case None => |url|
  }

  /**
   * `url.split("/breeds/")[1]`: the text between the first occurrence of the
   * marker and the next one (the split finds occurrences left to right,
   * without overlap), or the end of the URL.
   */
  function SecondPart(url: string): (r: string)
    requires HasMarker(url)
    ensures r <= url[FirstMarker(url) + |Marker|..]
    ensures forall m :: 0 <= m < |r| ==> !OccursAt(r, Marker, m)
    ensures forall m :: FirstMarker(url) + |Marker| <= m < FirstMarker(url) + |Marker| + |r| ==> !OccursAt(url, Marker, m)
    ensures var e := FirstMarker(url) + |Marker| + |r|; e == |url| || OccursAt(url, Marker, e)
  {
    var a := FirstMarker(url) + |Marker|;
    var e := PartEnd(url, a);
    forall m | 0 <= m < e - a && OccursAt(url[a..e], Marker, m) ensures OccursAt(url, Marker, a + m) {
      OccursInSlice(url, Marker, a, e, m);
    }
    url[a..e]
  }

  /** Cutting the second split part at its first `/` gives the segment after the first marker. */
  lemma SecondPartCut(url: string)
    requires HasMarker(url)
    ensures Before(SecondPart(url), '/') == Segment(url, FirstMarker(url))
  {
    var a := FirstMarker(url) + |Marker|;
    BeforeSlice(url, '/', a, PartEnd(url, a));
  }

  /**
   * `extract_breed`: the text after the first marker, cut at the next `/` or
   * the end of the URL, then cut at its first hyphen. The source raises
   * `IndexError` when the marker is absent; here that is a precondition.
   */
  function ExtractBreed(url: string): (b: string)
    requires HasMarker(url)
    ensures b == Before(Segment(url, FirstMarker(url)), '-')
    ensures '-' !in b && '/' !in b
  {
    SecondPartCut(url);
    Before(Before(SecondPart(url), '/'), '-')
  }

  /** Where the parser matches at the first marker, both extractors name the same breed. */
  lemma ExtractAgreesOnMatch(url: string)
    requires HasMarker(url)
    requires MatchAt(url, FirstMarker(url))
    ensures ExtractBreed(url) == ParseUrl(url).breed
  {
    var i := FirstMarker(url);
    forall m | 0 <= m < i ensures !MatchAt(url, m) { }
    ParseUrlLeftmost(url, i);
  }

  /**
   * The two extractors agree exactly when the parser matches at the first
   * marker, or when both yield the empty breed. Elsewhere they differ: after
   * `/breeds//` the stats view sees an empty breed where the parser looks
   * further along; with no `/` after the first marker the stats view takes the
   * rest of the URL where the parser finds no match at all.
   */
  lemma ExtractAgreesIff(url: string)
    requires HasMarker(url)
    ensures ExtractBreed(url) == ParseUrl(url).breed
        <==> MatchAt(url, FirstMarker(url)) || (ExtractBreed(url) == "" && ParseUrl(url).breed == "")
  {
    var i := FirstMarker(url);
    var seg := Segment(url, i);
    if MatchAt(url, i) {
      ExtractAgreesOnMatch(url);
    } else if |seg| == 0 {
      assert ExtractBreed(url) == "";
    } else {
      assert i + |Marker| + |seg| == |url|;
      NoMatchAfterUnclosed(url, i);
      ParseUrlNoMatch(url);
    }
  }

  /** When no `/` follows the first marker, the parser's pattern matches nowhere. */
  lemma NoMatchAfterUnclosed(url: string, i: nat)
    requires HasMarker(url) && i == FirstMarker(url)
    requires i + |Marker| + |Segment(url, i)| == |url|
    ensures forall k :: !MatchAt(url, k)
  {
    var a := i + |Marker|;
    var seg := Segment(url, i);
    assert seg == url[a..];
    assert url[i..a] == Marker;
    forall k: nat ensures !OccursAt(url, Marker, k) || k == i {
      if i < k < i + 7 {
        assert url[k] == Marker[k - i] != Marker[0];
      } else if k == i + 7 && k + |Marker| <= |url| {
        assert url[k + 7] == seg[k + 7 - a] != Marker[7];
      } else if a <= k < |url| {
        assert url[k] == seg[k - a] != Marker[0];
      }
    }
  }

  /**
   * After `/breeds//` at the first marker the stats view reads an empty
   * breed, while the parser skips that marker and goes on searching further
   * along the URL.
   */
  lemma ExtractEmptySlug(url: string)
    requires HasMarker(url) && Segment(url, FirstMarker(url)) == ""
    ensures ExtractBreed(url) == ""
    ensures !MatchAt(url, FirstMarker(url))
    ensures Search(url, 0) == Search(url, FirstMarker(url) + 1)
  {
    var i := FirstMarker(url);
    forall m | 0 <= m < i + 1 ensures !MatchAt(url, m) { }
    SearchSkip(url, 0, i + 1);
  }

  /** `[extract_breed(f.url) for f in favorites]`. */
  function Breeds(favs: seq<FavoriteDog>): (bs: seq<string>)
    requires forall k :: 0 <= k < |favs| ==> HasMarker(favs[k].url)
    ensures |bs| == |favs|
    ensures forall k :: 0 <= k < |favs| ==> bs[k] == ExtractBreed(favs[k].url)
  {
    seq(|favs|, k requires 0 <= k < |favs| => ExtractBreed(favs[k].url))
  }

  /** What the stats tab charts: nothing for an empty table, otherwise the breed counts. */
  datatype StatsView = NoData | Chart(counts: map<string, nat>)

  /**
   * `show_stats_tab` after reading the table: an empty table gives no chart
   * and extracts nothing; otherwise every favourite's breed is extracted and
   * counted. Every URL must hold the marker, as `extract_breed` raises
   * otherwise.
   */
  function ShowStats(favs: seq<FavoriteDog>): (v: StatsView)
    requires forall k :: 0 <= k < |favs| ==> HasMarker(favs[k].url)
    ensures v.NoData? <==> favs == []
    ensures v.Chart? ==> forall b :: b in v.counts <==> b in Breeds(favs)
    ensures v.Chart? ==> forall b :: b in v.counts ==> v.counts[b] == multiset(Breeds(favs))[b] >= 1
    ensures v.Chart? ==> forall b :: b in Distinct(Breeds(favs)) ==> b in v.counts
    ensures v.Chart? ==> SumOver(v.counts, Distinct(Breeds(favs))) == |favs|
  {
    if favs == [] then NoData
    else
      var bs := Breeds(favs);
      CountsTotal(bs);
      Chart(Counts(bs))
  }

  /**
   * The caption under a fetched image: the breed, after `"Random "` on the
   * random path, then the sub-breed in parentheses only when it is present
   * and non-empty (an empty string is falsy in the source).
   */
  function Caption(img: DogImage, random: bool): (c: string)
    ensures var head := (if random then "Random " else "") + img.breed;
      && head <= c
      && (|c| == |head| <==> img.subBreed.None? || img.subBreed.value == "")
      && (|c| > |head| ==> c[|head|..] == " (" + img.subBreed.value + ")")
  {
    var head := (if random then "Random " else "") + img.breed;
    match img.subBreed
    case Some(s) => if s != "" then head + " (" + s + ")" else head
    case None => head
  }

  /**
   * The caption of an image fetched from `.../breeds/{b}-{s}/...` names the
   * breed and, when `s` is not empty, the sub-breed in parentheses.
   */
  lemma CaptionOfSubBreedUrl(pre: string, b: string, s: string, post: string)
    requires '/' !in b && '-' !in b && '/' !in s
    requires forall i :: 0 <= i < |pre| ==> !MatchAt(pre + Marker + (b + "-" + s) + "/" + post, i)
    ensures var img := OutImage(map["message" := pre + Marker + (b + "-" + s) + "/" + post]);
      && img.Some?
      && Caption(img.value, false) == (if s == "" then b else b + " (" + s + ")")
  {
    var url := pre + Marker + (b + "-" + s) + "/" + post;
    ParseUrlWithSubBreed(pre, b, s, post);
    var img := DogImage(url, b, Some(s));
    assert OutImage(map["message" := url]) == Some(img);
    assert "" + b == b;
  }

  /** With the first marker right after `pre`, the stats view takes the slug's text before its first hyphen. */
  lemma ExtractBreedAt(pre: string, slug: string, post: string)
    requires '/' !in slug
    requires forall i :: 0 <= i < |pre| ==> !OccursAt(pre + Marker + slug + "/" + post, Marker, i)
    ensures HasMarker(pre + Marker + slug + "/" + post)
    ensures ExtractBreed(pre + Marker + slug + "/" + post) == Before(slug, '-')
  {
    var url := pre + Marker + slug + "/" + post;
    SegmentOnSlug(pre, slug, post);
    assert FirstMarker(url) == |pre|;
  }

  /** An image URL as the API serves them: a host, the marker, a slug, then a file name. */
  function ImageUrl(host: string, slug: string, file: string): string
  {
    host + Marker + slug + "/" + file
  }

  /** The stats view reads a served URL's breed off its slug. */
  lemma ExtractImageUrl(host: string, slug: string, file: string)
    requires 'b' !in host && '/' !in slug
    ensures HasMarker(ImageUrl(host, slug, file))
    ensures ExtractBreed(ImageUrl(host, slug, file)) == Before(slug, '-')
  {
    MarkerNotBefore(host, slug + "/" + file);
    assert ImageUrl(host, slug, file) == host + Marker + (slug + "/" + file);
    ExtractBreedAt(host, slug, file);
  }

  /** Splitting the slugs of `StatsExample`: `terrier-yorkshire` and `bulldog`. */
  lemma SlugExamples()
    ensures Before("terrier-yorkshire", '-') == "terrier"
    ensures Before("bulldog", '-') == "bulldog"
  {
    SplitJoin("terrier", '-', "yorkshire");
    assert "terrier" + ['-'] + "yorkshire" == "terrier-yorkshire";
    SplitNone("bulldog", '-');
  }

  /** The breeds of `StatsExample` counted: two terriers and a bulldog. */
  lemma CountsExample()
    ensures Counts(["terrier", "terrier", "bulldog"]) == map["terrier" := 2, "bulldog" := 1]
  {
    var t, d := "terrier", "bulldog";
    assert t != d by { assert t[0] != d[0]; }
    CountsTwoAndOne(t, d);
  }

  /** A table whose breeds are `t`, `t` and `d`, with `t` and `d` distinct, charts `t` twice and `d` once. */
  lemma ShowStatsOfBreeds(favs: seq<FavoriteDog>, t: string, d: string)
    requires t != d
    requires forall k :: 0 <= k < |favs| ==> HasMarker(favs[k].url)
    requires Breeds(favs) == [t, t, d]
    ensures ShowStats(favs) == Chart(map[t := 2, d := 1])
  {
    CountsTwoAndOne(t, d);
    assert ShowStats(favs) == Chart(Counts(Breeds(favs)));
  }

  /** The breeds of a three-row table, one per row. */
  lemma BreedsOfThree(favs: seq<FavoriteDog>, t: string, d: string)
    requires |favs| == 3
    requires forall k :: 0 <= k < |favs| ==> HasMarker(favs[k].url)
    requires ExtractBreed(favs[0].url) == t && ExtractBreed(favs[1].url) == t && ExtractBreed(favs[2].url) == d
    ensures Breeds(favs) == [t, t, d]
  {
    var bs := Breeds(favs);
    assert bs[0] == t;
    assert bs[1] == t;
    assert bs[2] == d;
    ThreeElements(bs, t, d);
  }

  /** A sequence of length three is given by its three elements. */
  lemma ThreeElements(bs: seq<string>, t: string, d: string)
    requires |bs| == 3 && bs[0] == t && bs[1] == t && bs[2] == d
    ensures bs == [t, t, d]
  {
  }

  /** The rows of a three-row table hold the three URLs it was built from. */
  lemma UrlsOfThree(favs: seq<FavoriteDog>, u1: string, u2: string, u3: string)
    requires favs == [FavoriteDog(1, u1), FavoriteDog(2, u2), FavoriteDog(3, u3)]
    requires HasMarker(u1) && HasMarker(u2) && HasMarker(u3)
    ensures forall k :: 0 <= k < |favs| ==> HasMarker(favs[k].url)
    ensures favs[0].url == u1 && favs[1].url == u2 && favs[2].url == u3
  {
  }

  /** Three saved URLs whose breeds are `t`, `t` and `d` are charted as two `t` and one `d`. */
  lemma StatsOfThreeUrls(u1: string, u2: string, u3: string, t: string, d: string)
    requires HasMarker(u1) && HasMarker(u2) && HasMarker(u3) && t != d
    requires ExtractBreed(u1) == t && ExtractBreed(u2) == t && ExtractBreed(u3) == d
    ensures var favs := [FavoriteDog(1, u1), FavoriteDog(2, u2), FavoriteDog(3, u3)];
      && (forall k :: 0 <= k < |favs| ==> HasMarker(favs[k].url))
      && ShowStats(favs) == Chart(map[t := 2, d := 1])
  {
    var favs := [FavoriteDog(1, u1), FavoriteDog(2, u2), FavoriteDog(3, u3)];
    UrlsOfThree(favs, u1, u2, u3);
    BreedsOfThree(favs, t, d);
    ShowStatsOfBreeds(favs, t, d);
  }

  /**
   * The stats view of a table holding two `terrier-yorkshire` images and one
   * `bulldog` image, served from a host whose name holds no `b`, charts two
   * terriers and one bulldog.
   */
  lemma StatsExample(host: string, f1: string, f2: string, f3: string)
    requires 'b' !in host
    ensures var favs := [
        FavoriteDog(1, ImageUrl(host, "terrier-yorkshire", f1)),
        FavoriteDog(2, ImageUrl(host, "terrier-yorkshire", f2)),
        FavoriteDog(3, ImageUrl(host, "bulldog", f3))];
      && (forall k :: 0 <= k < |favs| ==> HasMarker(favs[k].url))
      && ShowStats(favs) == Chart(map["terrier" := 2, "bulldog" := 1])
  {
    ServedExampleBreeds(host, f1, f2, f3);
    var t, d := "terrier", "bulldog";
    assert t != d by { assert t[0] != d[0]; }
    StatsOfThreeUrls(ImageUrl(host, "terrier-yorkshire", f1), ImageUrl(host, "terrier-yorkshire", f2), ImageUrl(host, "bulldog", f3), t, d);
  }

  /** The three images of `StatsExample` are read as a terrier, a terrier and a bulldog. */
  lemma ServedExampleBreeds(host: string, f1: string, f2: string, f3: string)
    requires 'b' !in host
    ensures HasMarker(ImageUrl(host, "terrier-yorkshire", f1)) && HasMarker(ImageUrl(host, "terrier-yorkshire", f2))
    ensures HasMarker(ImageUrl(host, "bulldog", f3))
    ensures ExtractBreed(ImageUrl(host, "terrier-yorkshire", f1)) == "terrier"
    ensures ExtractBreed(ImageUrl(host, "terrier-yorkshire", f2)) == "terrier"
    ensures ExtractBreed(ImageUrl(host, "bulldog", f3)) == "bulldog"
  {
    SlugExamples();
    var ty, bd := "terrier-yorkshire", "bulldog";
    assert Before(ty, '-') == "terrier" && Before(bd, '-') == "bulldog";
    ExtractImageUrl(host, ty, f1);
    assert ExtractBreed(ImageUrl(host, ty, f1)) == "terrier";
    ExtractImageUrl(host, ty, f2);
    assert ExtractBreed(ImageUrl(host, ty, f2)) == "terrier";
    ExtractImageUrl(host, bd, f3);
  }
}
