/**
  The details repository: choosing the latest published release out of the
  releases the API lists, mapping the network models to the domain ones, and
  counting contributors from the `Link` header of a one-per-page request.
  The HTTP calls are left out; their answers are the parameters.
 */
module Details {
  import opened Wrappers
  import opened Strings

  /** A GitHub user; the network owner model and the domain user carry the same three fields. */
  datatype GithubUser = GithubUser(login: string, avatarUrl: string, htmlUrl: string)

  datatype AssetNetwork = AssetNetwork(
    id: int,
    name: string,
    contentType: string,
    size: int,
    downloadUrl: string,
    uploader: GithubUser
  )

  /** A release as the API lists it; the absent JSON fields are `None`. */
  datatype ReleaseNetwork = ReleaseNetwork(
    id: int,
    tagName: string,
    name: Option<string>,
    draft: Option<bool>,
    prerelease: Option<bool>,
    author: GithubUser,
    publishedAt: Option<string>,
    createdAt: Option<string>,
    body: Option<string>,
    tarballUrl: string,
    zipballUrl: string,
    htmlUrl: string,
    assets: seq<AssetNetwork>
  )

  datatype GithubAsset = GithubAsset(
    id: int,
    name: string,
    contentType: string,
    size: int,
    downloadUrl: string,
    uploader: GithubUser
  )

  datatype GithubRelease = GithubRelease(
    id: int,
    tagName: string,
    name: Option<string>,
    author: GithubUser,
    publishedAt: string,
    description: Option<string>,
    assets: seq<GithubAsset>,
    tarballUrl: string,
    zipballUrl: string,
    htmlUrl: string
  )

  // ---------------------------------------------------------------------------
  // Latest published release

  /** Neither a draft nor a prerelease; a missing flag counts as `false`. */
  predicate Qualifies(r: ReleaseNetwork) {
    r.draft != Some(true) && r.prerelease != Some(true)
  }

  /** The sort key `publishedAt ?: createdAt ?: ""`. */
  function SortKey(r: ReleaseNetwork): string {
    r.publishedAt.OrElse(r.createdAt).GetOr("")
  }

  /**
    `rs[i]` is what a stable descending sort of the qualifying releases puts
    first: it qualifies, no qualifying key is greater, and every qualifying
    release before it has a different, hence smaller, key.
   */
  ghost predicate IsLatest(rs: seq<ReleaseNetwork>, i: int) {
    && 0 <= i < |rs|
    && Qualifies(rs[i])
    && (forall j :: 0 <= j < |rs| && Qualifies(rs[j]) ==> LexLe(SortKey(rs[j]), SortKey(rs[i])))
    && (forall j :: 0 <= j < i && Qualifies(rs[j]) ==> SortKey(rs[j]) != SortKey(rs[i]))
  }

  /** The position of the release `filter`, `sortedByDescending` and `firstOrNull` pick. */
  function SelectLatest(rs: seq<ReleaseNetwork>): (r: Option<nat>)
    ensures r.None? <==> forall j :: 0 <= j < |rs| ==> !Qualifies(rs[j])
    ensures r.Some? ==> IsLatest(rs, r.value)
    decreases |rs|
  {
    if |rs| == 0 then None
    else
      var n := |rs| - 1;
      var rest := SelectLatest(rs[..n]);
      assert forall j :: 0 <= j < n ==> rs[..n][j] == rs[j];
      if !Qualifies(rs[n]) then rest
      else if rest.None? then
        LexLeReflexive(SortKey(rs[n]));
        Some(n)
      else if LexLe(SortKey(rs[n]), SortKey(rs[rest.value])) then rest
      else
        KeepsNewer(rs, rest.value);
        Some(n)
  }

  /** When the last release's key beats the best of the others, it beats every qualifying one. */
  lemma KeepsNewer(rs: seq<ReleaseNetwork>, i: nat)
    requires |rs| >= 1 && Qualifies(rs[|rs| - 1])
    requires IsLatest(rs[..|rs| - 1], i)
    requires !LexLe(SortKey(rs[|rs| - 1]), SortKey(rs[i]))
    ensures IsLatest(rs, |rs| - 1)
  {
    var n := |rs| - 1;
    var top := SortKey(rs[n]);
    LexLeTotal(top, SortKey(rs[i]));
    LexLeReflexive(top);
    forall j | 0 <= j < |rs| && Qualifies(rs[j])
      ensures LexLe(SortKey(rs[j]), top)
    {
      if j < n {
        assert rs[..n][j] == rs[j];
        LexLeTransitive(SortKey(rs[j]), SortKey(rs[i]), top);
      }
    }
    forall j | 0 <= j < n && Qualifies(rs[j])
      ensures SortKey(rs[j]) != top
    {
      assert rs[..n][j] == rs[j];
    }
  }

  /** At most one position is the latest: the choice is determined. */
  lemma LatestIsUnique(rs: seq<ReleaseNetwork>, i: int, j: int)
    requires IsLatest(rs, i) && IsLatest(rs, j)
    ensures i == j
  {
    LexLeAntisymmetric(SortKey(rs[i]), SortKey(rs[j]));
  }

  function AssetToDomain(a: AssetNetwork): GithubAsset {
    GithubAsset(a.id, a.name, a.contentType, a.size, a.downloadUrl, a.uploader)
  }

  /** `ReleaseNetwork.toDomain()`. */
  function ReleaseToDomain(r: ReleaseNetwork): (g: GithubRelease)
    ensures g.publishedAt == SortKey(r)
    ensures g.id == r.id && g.tagName == r.tagName && g.description == r.body
    ensures |g.assets| == |r.assets|
    ensures forall k :: 0 <= k < |r.assets| ==>
              && g.assets[k].name == r.assets[k].name
              && g.assets[k].size == r.assets[k].size
              && g.assets[k].downloadUrl == r.assets[k].downloadUrl
  {
    GithubRelease(
      r.id, r.tagName, r.name, r.author,
      r.publishedAt.OrElse(r.createdAt).GetOr(""),
      r.body,
      seq(|r.assets|, k requires 0 <= k < |r.assets| => AssetToDomain(r.assets[k])),
      r.tarballUrl, r.zipballUrl, r.htmlUrl)
  }

  /** `getLatestPublishedRelease`, given the releases the API listed. */
  function GetLatestPublishedRelease(rs: seq<ReleaseNetwork>): (r: Option<GithubRelease>)
    ensures r.None? <==> forall j :: 0 <= j < |rs| ==> !Qualifies(rs[j])
    ensures r.Some? ==> exists i :: IsLatest(rs, i) && r.value == ReleaseToDomain(rs[i])
  {
    match SelectLatest(rs)
    case None => None
    case Some(i) => Some(ReleaseToDomain(rs[i]))
  }

  /** The returned release is never a draft or a prerelease, and no qualifying release is newer. */
  lemma LatestIsPublishedAndNewest(rs: seq<ReleaseNetwork>)
    ensures var r := GetLatestPublishedRelease(rs);
            r.Some? ==> && (exists i :: 0 <= i < |rs| && Qualifies(rs[i]) && r.value.tagName == rs[i].tagName)
                        && (forall j :: 0 <= j < |rs| && Qualifies(rs[j]) ==> LexLe(SortKey(rs[j]), r.value.publishedAt))
  {
  }

  // ---------------------------------------------------------------------------
  // Contributors count from the Link header

  const RelLast: string := "rel=\"last\""

  /** The query of the header's links: the request's two parameters, then the page. */
  const PagedQuery: string := "?per_page=1&anon=1&page="

  /** What the contributors request gave: an exception, or a response with or without a `Link` header. */
  datatype ContributorsResponse = RequestFailed | Responded(link: Option<string>)

  /**
    The count as the code computes it: 1 without a `Link` header or without a
    `rel="last"` link; otherwise the text after the first `page=` of the first
    comma-separated segment holding `rel="last"`, cut before the first `>`,
    parsed as an `Int`, with 0 when that fails. A failed request counts 0.
   */
  function ContributorsCountAsWritten(response: ContributorsResponse): (n: int)
    ensures response.RequestFailed? ==> n == 0
    ensures response.Responded? && (response.link.None? || !Contains(response.link.value, RelLast)) ==> n == 1
  {
    match response
    case RequestFailed => 0
    case Responded(link) =>
      if link.Some? && Contains(link.value, RelLast) then
        match FirstContaining(Split(link.value, ','), RelLast)
        case None => 0
        case Some(lastPart) => ParseInt(SubstringBefore(SubstringAfter(lastPart, "page="), ">")).GetOr(0)
      else 1
  }

  /** A header that mentions `rel="last"` always has a comma-separated segment that does. */
  lemma LastSegmentFound(link: string)
    requires Contains(link, RelLast)
    ensures FirstContaining(Split(link, ','), RelLast).Some?
  {
    SplitKeepsPattern(link, ',', RelLast);
  }

  /**
    The `rel="last"` segment of the header GitHub sends for the request above:
    ` <url?per_page=1&anon=1&page=N>; rel="last"`.
   */
  function LastSegment(url: string, n: nat): string {
    " <" + url + PagedQuery + Decimal(n) + ">; " + RelLast
  }

  /** The full header: a `rel="next"` segment, then the `rel="last"` one. */
  function GithubLink(next: string, url: string, n: nat): string {
    next + "," + LastSegment(url, n)
  }

  /** The shape of the URL GitHub puts in the header: none of the header's or the query's separators. */
  predicate PlainUrl(url: string) {
    ',' !in url && '=' !in url && '?' !in url && '<' !in url && '>' !in url
  }

  /** The `rel="next"` segment: no comma, and no `rel="last"`. */
  predicate NextSegment(next: string) {
    ',' !in next && !Contains(next, RelLast)
  }

  /** The digits of a page number hold none of the separators. */
  lemma DecimalHasNoSeparator(n: nat)
    ensures ',' !in Decimal(n) && '>' !in Decimal(n) && '&' !in Decimal(n)
  {
    var d := Decimal(n);
    assert forall k :: 0 <= k < |d| ==> IsDigit(d[k]);
  }

  /** GitHub's last segment holds `rel="last"` and no comma. */
  lemma LastSegmentShape(url: string, n: nat)
    requires PlainUrl(url)
    ensures Contains(LastSegment(url, n), RelLast)
    ensures ',' !in LastSegment(url, n)
  {
    var head := " <" + url + PagedQuery + Decimal(n) + ">; ";
    var seg := LastSegment(url, n);
    assert seg == head + RelLast;
    assert seg[|head|..|head| + |RelLast|] == RelLast;
    ContainsWitness(seg, RelLast, |head|);
    DecimalHasNoSeparator(n);
  }

  /** Of a GitHub header, the first segment holding `rel="last"` is the last segment. */
  lemma SplitGithubLink(next: string, url: string, n: nat)
    requires PlainUrl(url) && NextSegment(next)
    ensures Contains(GithubLink(next, url, n), RelLast)
    ensures FirstContaining(Split(GithubLink(next, url, n), ','), RelLast) == Some(LastSegment(url, n))
  {
    var seg := LastSegment(url, n);
    LastSegmentShape(url, n);
    assert GithubLink(next, url, n) == next + [','] + seg;
    ContainsInSuffix(next + [','], seg, RelLast);
    SplitAtFirst(next, ',', seg);
    SplitNoSeparator(seg, ',');
    assert Split(GithubLink(next, url, n), ',') == [next, seg];
  }

  /**
    In `pre + pat + tail`, a pattern that ends in its only `=` is first found
    right after `pre` when `pre` has no `=`.
   */
  lemma AfterEqualsPattern(pre: string, pat: string, tail: string)
    requires |pat| >= 1 && pat[|pat| - 1] == '=' && '=' !in pat[..|pat| - 1]
    requires '=' !in pre
    ensures SubstringAfter(pre + pat + tail, pat) == tail
  {
    var s := pre + pat + tail;
    assert s[|pre|..|pre| + |pat|] == pat;
    assert FirstOccurrence(s, pat, |pre|);
    assert s[|pre| + |pat|..] == tail;
  }

  /**
    On the header GitHub sends, the code as written reads the `1` of
    `per_page=1` and fails to parse `1&anon=1&page=N`: the count is 0 for
    every repository, whatever its number of contributors.
   */
  lemma AsWrittenMissesPage(next: string, url: string, n: nat)
    requires PlainUrl(url) && NextSegment(next)
    ensures ContributorsCountAsWritten(Responded(Some(GithubLink(next, url, n)))) == 0
  {
    var link, seg := GithubLink(next, url, n), LastSegment(url, n);
    SplitGithubLink(next, url, n);
    AsWrittenOfSegment(link, seg);
    AsWrittenValue(url, n);
    NotANumber(Decimal(n));
  }

  /** Once the `rel="last"` segment is found, the code as written parses what follows its first `page=`. */
  lemma AsWrittenOfSegment(link: string, seg: string)
    requires Contains(link, RelLast) && FirstContaining(Split(link, ','), RelLast) == Some(seg)
    ensures ContributorsCountAsWritten(Responded(Some(link)))
            == ParseInt(SubstringBefore(SubstringAfter(seg, "page="), ">")).GetOr(0)
  {
  }

  /** The text read after `per_page=` is no number: its second character is `&`. */
  lemma NotANumber(d: string)
    ensures ParseInt("1&anon=1&page=" + d) == None
  {
    var value := "1&anon=1&page=" + d;
    assert value[1] == '&' && !IsDigit(value[1]);
    assert !AllDigits(value) && !AllDigits(value[1..]);
  }

  /** The text the code as written parses out of GitHub's last segment. */
  lemma AsWrittenValue(url: string, n: nat)
    requires PlainUrl(url)
    ensures SubstringBefore(SubstringAfter(LastSegment(url, n), "page="), ">") == "1&anon=1&page=" + Decimal(n)
  {
    SegmentAfterFirstPage(url, n);
    var value := "1&anon=1&page=" + Decimal(n);
    DecimalHasNoSeparator(n);
    IndexOfCharAfter(value, '>', "; " + RelLast);
  }

  /** The first `page=` of GitHub's last segment is the end of `per_page=`. */
  lemma SegmentAfterFirstPage(url: string, n: nat)
    requires PlainUrl(url)
    ensures SubstringAfter(LastSegment(url, n), "page=") == "1&anon=1&page=" + Decimal(n) + ['>'] + ("; " + RelLast)
  {
    var pre := " <" + url + "?per_";
    var tail := "1&anon=1&page=" + Decimal(n) + ['>'] + ("; " + RelLast);
    LastSegmentAtPage(url, Decimal(n));
    assert '=' !in pre;
    AfterEqualsPattern(pre, "page=", tail);
  }

  /** GitHub's last segment, cut around the `page=` that ends `per_page=`. */
  lemma LastSegmentAtPage(url: string, d: string)
    ensures " <" + url + PagedQuery + d + ">; " + RelLast
            == (" <" + url + "?per_") + "page=" + ("1&anon=1&page=" + d + ['>'] + ("; " + RelLast))
  {
    assert PagedQuery == "?per_" + "page=" + "1&anon=1&page=";
    assert ">; " + RelLast == ['>'] + ("; " + RelLast);
  }

  // ---------------------------------------------------------------------------
  // The corrected count

  /** The value of the first `name=value` pair of `params` whose name is `name`. */
  function ParamValue(params: seq<string>, name: string): (r: Option<string>)
    ensures r.None? <==> forall i :: 0 <= i < |params| ==> !(name + "=" <= params[i])
    ensures r.Some? ==> exists i :: && 0 <= i < |params| && params[i] == name + "=" + r.value
                                    && forall j :: 0 <= j < i ==> !(name + "=" <= params[j])
    decreases |params|
  {
    if |params| == 0 then None
    else
      var prefix := name + "=";
      if prefix <= params[0] then
        assert params[0] == prefix + params[0][|prefix|..];
        Some(params[0][|prefix|..])
      else
        var r := ParamValue(params[1..], name);
        assert forall i :: 1 <= i < |params| ==> params[i] == params[1..][i - 1];
        if r.Some? then
          var i :| && 0 <= i < |params[1..]| && params[1..][i] == prefix + r.value
                   && forall j :: 0 <= j < i ==> !(prefix <= params[1..][j]);
          assert params[i + 1] == prefix + r.value;
          assert forall j :: 0 <= j < i + 1 ==> !(prefix <= params[j]) by {
            forall j | 0 <= j < i + 1
              ensures !(prefix <= params[j])
            {
              if j > 0 {
                assert params[j] == params[1..][j - 1];
              }
            }
          }
          r
        else
          r
  }

  /**
    The `page` query parameter of the URL between `<` and `>` in a segment:
    the parameter the header's links are built from.
   */
  function PageOfSegment(segment: string): Option<string> {
    var url := SubstringBefore(SubstringAfter(segment, "<"), ">");
    var query := SubstringAfter(url, "?");
    ParamValue(Split(query, '&'), "page")
  }

  /** The count read from the `page` parameter of the `rel="last"` link, otherwise as before. */
  function ContributorsCount(response: ContributorsResponse): (n: int)
    ensures response.RequestFailed? ==> n == 0
    ensures response.Responded? && (response.link.None? || !Contains(response.link.value, RelLast)) ==> n == 1
  {
    match response
    case RequestFailed => 0
    case Responded(link) =>
      if link.Some? && Contains(link.value, RelLast) then
        match FirstContaining(Split(link.value, ','), RelLast)
        case None => 0
        case Some(lastPart) =>
          match PageOfSegment(lastPart)
          case None => 0
          case Some(page) => ParseInt(page).GetOr(0)
      else 1
  }

  /** The URL between `<` and `>` of GitHub's last segment. */
  lemma LastSegmentUrl(url: string, n: nat)
    requires PlainUrl(url)
    ensures SubstringBefore(SubstringAfter(LastSegment(url, n), "<"), ">") == url + PagedQuery + Decimal(n)
  {
    SegmentAfterOpen(url, n);
    UrlBeforeClose(url, n);
  }

  /** GitHub's last segment past its `<`. */
  lemma SegmentAfterOpen(url: string, n: nat)
    ensures SubstringAfter(LastSegment(url, n), "<") == url + PagedQuery + Decimal(n) + ['>'] + ("; " + RelLast)
  {
    var rest := url + PagedQuery + Decimal(n) + ['>'] + ("; " + RelLast);
    assert LastSegment(url, n) == " " + ['<'] + rest;
    SubstringAfterChar(" ", '<', rest);
  }

  /** That text cut at its first `>`: the URL. */
  lemma UrlBeforeClose(url: string, n: nat)
    requires PlainUrl(url)
    ensures SubstringBefore(url + PagedQuery + Decimal(n) + ['>'] + ("; " + RelLast), ">") == url + PagedQuery + Decimal(n)
  {
    var inner := url + PagedQuery + Decimal(n);
    DecimalHasNoSeparator(n);
    assert '>' !in inner;
    SubstringBeforeChar(inner, '>', "; " + RelLast);
  }

  /** The query of that URL splits into the request's two parameters and the page. */
  lemma LastSegmentParams(url: string, n: nat)
    requires PlainUrl(url)
    ensures Split(SubstringAfter(url + PagedQuery + Decimal(n), "?"), '&') == ["per_page=1", "anon=1", "page=" + Decimal(n)]
  {
    QueryOfUrl(url, Decimal(n));
    DecimalHasNoSeparator(n);
    SplitQuery(Decimal(n));
  }

  /** The text after the `?` of the URL. */
  lemma QueryOfUrl(url: string, d: string)
    requires PlainUrl(url)
    ensures SubstringAfter(url + PagedQuery + d, "?") == "per_page=1" + ['&'] + ("anon=1" + ['&'] + ("page=" + d))
  {
    var query := "per_page=1" + ['&'] + ("anon=1" + ['&'] + ("page=" + d));
    assert url + PagedQuery + d == url + ['?'] + query;
    IndexOfCharAfter(url, '?', query);
  }

  /** Splitting the query at `&`. */
  lemma SplitQuery(d: string)
    requires '&' !in d
    ensures Split("per_page=1" + ['&'] + ("anon=1" + ['&'] + ("page=" + d)), '&') == ["per_page=1", "anon=1", "page=" + d]
  {
    SplitQueryTail(d);
    SplitAtFirst("per_page=1", '&', "anon=1" + ['&'] + ("page=" + d));
  }

  /** Splitting the query past its first parameter. */
  lemma SplitQueryTail(d: string)
    requires '&' !in d
    ensures Split("anon=1" + ['&'] + ("page=" + d), '&') == ["anon=1", "page=" + d]
  {
    SplitNoSeparator("page=" + d, '&');
    SplitAtFirst("anon=1", '&', "page=" + d);
  }

  /** The `page` parameter of GitHub's last segment is the number of the last page. */
  lemma PageOfLastSegment(url: string, n: nat)
    requires PlainUrl(url)
    ensures PageOfSegment(LastSegment(url, n)) == Some(Decimal(n))
  {
    LastSegmentUrl(url, n);
    LastSegmentParams(url, n);
    PageParamOfQuery(Decimal(n));
  }

  /** Of the request's parameters and the page, the `page` parameter is the page. */
  lemma PageParamOfQuery(d: string)
    ensures ParamValue(["per_page=1", "anon=1", "page=" + d], "page") == Some(d)
  {
    var prefix := "page" + "=";
    assert prefix == "page=";
    var last := ["page=" + d];
    assert ParamValue(last, "page") == Some(d) by {
      assert last[0][..|prefix|] == prefix;
      assert last[0][|prefix|..] == d;
    }
    var two := ["anon=1"] + last;
    assert ParamValue(two, "page") == Some(d) by {
      assert two[0][..|prefix|][0] == 'a';
      assert two[1..] == last;
    }
    var params := ["per_page=1"] + two;
    assert params[0][..|prefix|][1] == 'e';
    assert params[1..] == two;
    assert params == ["per_page=1", "anon=1", "page=" + d];
  }

  /** With the correction, a GitHub header gives the number of the last page. */
  lemma CountReadsLastPage(next: string, url: string, n: nat)
    requires PlainUrl(url) && NextSegment(next) && n <= MaxInt
    ensures ContributorsCount(Responded(Some(GithubLink(next, url, n)))) == n
  {
    var link, seg := GithubLink(next, url, n), LastSegment(url, n);
    SplitGithubLink(next, url, n);
    CountOfSegment(link, seg);
    PageOfLastSegment(url, n);
    ParseDecimal(n);
  }

  /** Once the `rel="last"` segment is found, the corrected count parses its `page` parameter. */
  lemma CountOfSegment(link: string, seg: string)
    requires Contains(link, RelLast) && FirstContaining(Split(link, ','), RelLast) == Some(seg)
    ensures ContributorsCount(Responded(Some(link)))
            == if PageOfSegment(seg).Some? then ParseInt(PageOfSegment(seg).value).GetOr(0) else 0
  {
  }

  /** The repository numbers the stats screen shows. */
  datatype RepoInfo = RepoInfo(stars: int, forks: int, openIssues: int)

  datatype RepoStats = RepoStats(stars: int, forks: int, openIssues: int, contributors: int)

  /**
    `getRepoStats` as written: the counts are copied from the repository, the
    contributors counted from the header by the code as written.
   */
  function GetRepoStats(info: RepoInfo, contributors: ContributorsResponse): (s: RepoStats)
    ensures s.stars == info.stars && s.forks == info.forks && s.openIssues == info.openIssues
    ensures contributors.RequestFailed? ==> s.contributors == 0
    ensures contributors.Responded? && (contributors.link.None? || !Contains(contributors.link.value, RelLast))
            ==> s.contributors == 1
    ensures s == GetRepoStatsCorrected(info, contributors).(contributors := ContributorsCountAsWritten(contributors))
  {
    RepoStats(info.stars, info.forks, info.openIssues, ContributorsCountAsWritten(contributors))
  }

  /** `getRepoStats` with the count read from the `page` parameter of the last link. */
  function GetRepoStatsCorrected(info: RepoInfo, contributors: ContributorsResponse): (s: RepoStats)
    ensures s.stars == info.stars && s.forks == info.forks && s.openIssues == info.openIssues
    ensures contributors.RequestFailed? ==> s.contributors == 0
    ensures contributors.Responded? && (contributors.link.None? || !Contains(contributors.link.value, RelLast))
            ==> s.contributors == 1
  {
    RepoStats(info.stars, info.forks, info.openIssues, ContributorsCount(contributors))
  }

  /** On GitHub's header the stats screen shows 0 contributors, whatever the last page is. */
  lemma StatsShowNoContributors(info: RepoInfo, next: string, url: string, n: nat)
    requires PlainUrl(url) && NextSegment(next)
    ensures GetRepoStats(info, Responded(Some(GithubLink(next, url, n)))).contributors == 0
  {
    AsWrittenMissesPage(next, url, n);
  }

  /** With the correction, the stats screen shows the number of the last page. */
  lemma CorrectedStatsShowLastPage(info: RepoInfo, next: string, url: string, n: nat)
    requires PlainUrl(url) && NextSegment(next) && n <= MaxInt
    ensures GetRepoStatsCorrected(info, Responded(Some(GithubLink(next, url, n)))).contributors == n
  {
    CountReadsLastPage(next, url, n);
  }
}
