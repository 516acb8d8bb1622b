/** `MinioClient`: object names for uploads, the public URL of a stored
    object and the way back from such a URL to (bucket, object name). The
    object store itself is reduced to whether each call fails; percent
    decoding (`unquote`) is a parameter. */
module Storage {

  import opened Common
  import opened Strings
  import Utils

  const DefaultContentType := "application/octet-stream"

  /** The codes under which a failed bucket creation is ignored. */
  const BucketTakenCodes := {"BucketAlreadyOwnedByYou", "BucketAlreadyExists"}

  // ------------------------------------------------------------- urlsplit

  predicate IsAsciiAlpha(c: char)
  {
    'a' <= c <= 'z' || 'A' <= c <= 'Z'
  }

  predicate IsSchemeChar(c: char)
  {
    IsAsciiAlpha(c) || '0' <= c <= '9' || c == '+' || c == '-' || c == '.'
  }

  /** `urlsplit` takes the text before the first ':' as the scheme when it
      is non-empty, starts with an ASCII letter and holds only scheme
      characters (Python 3.9 and later: `host:port` parses as scheme
      `host`). */
  predicate HasScheme(url: string)
  {
    var colon := IndexOf(url, ':');
    && colon.Some? && colon.value > 0
    && IsAsciiAlpha(url[0])
    && forall k :: 0 <= k < colon.value ==> IsSchemeChar(url[k])
  }

  /** The first position holding one of `cs`, or `|s|`. */
  function FirstOfAny(s: string, cs: set<char>): (p: nat)
    ensures p <= |s|
    ensures forall k :: 0 <= k < p ==> s[k] !in cs
    ensures p < |s| ==> s[p] in cs
    decreases |s|
  {
    if |s| == 0 || s[0] in cs then 0 else 1 + FirstOfAny(s[1..], cs)
  }

  /** `s` up to (not including) the first `c`. */
  function CutAt(s: string, c: char): (r: string)
    ensures |r| <= |s| && r == s[..|r|] && c !in r
    ensures |r| < |s| ==> s[|r|] == c
  {
    var p := FirstOfAny(s, {c});
    s[..p]
  }

  /** What follows the scheme's ':' (all of `url` when there is no scheme). */
  function AfterScheme(url: string): (rest: string)
  {
    if HasScheme(url) then url[IndexOf(url, ':').value + 1..] else url
  }

  /** What follows a leading `//netloc`: the netloc runs to the first '/',
      '?' or '#'. */
  function AfterNetloc(rest: string): string
  {
    if StartsWith(rest, "//") then rest[2..][FirstOfAny(rest[2..], {'/', '?', '#'})..] else rest
  }

  /** Drops the fragment, then the query. */
  function BeforeQuery(s: string): (r: string)
    ensures '?' !in r && '#' !in r
  {
    var noFragment := CutAt(s, '#');
    assert forall k :: 0 <= k < |CutAt(noFragment, '?')| ==> CutAt(noFragment, '?')[k] == noFragment[k];
    CutAt(noFragment, '?')
  }

  /** The schemes whose last path segment may carry `;params`
      (`uses_params`; the empty scheme is one of them). */
  const UsesParams := {"", "ftp", "hdl", "prospero", "http", "imap", "https", "shttp",
                       "rtsp", "rtsps", "rtspu", "sip", "sips", "mms", "sftp", "tel"}

  /** The scheme as `urlsplit` reports it: lower-cased, empty when absent. */
  function SchemeName(url: string): string
  {
    if HasScheme(url) then Utils.Lower(url[..IndexOf(url, ':').value]) else ""
  }

  /** Where the last segment of `path` starts: at its last '/', or at 0. */
  function SegmentStart(path: string): (start: nat)
    ensures start <= |path|
    ensures '/' !in path[start..] || (path[start] == '/' && '/' !in path[start + 1..])
  {
    var slash := LastIndexOf(path, '/');
    if slash.Some? then slash.value else 0
  }

  /** `_splitparams`: the path ends before the first ';' of its last
      segment, the rest being the params. */
  function CutParams(path: string): (r: string)
    ensures |r| <= |path| && r == path[..|r|]
  {
    var start := SegmentStart(path);
    var semi := IndexOf(path[start..], ';');
    if semi.Some? then path[..start + semi.value] else path
  }

  /** The params start at the first ';' of the last segment, and only there. */
  lemma CutParamsAtFirstSemicolon(path: string)
    ensures var r := CutParams(path);
      && (';' !in path[SegmentStart(path)..] ==> r == path)
      && (|r| < |path| ==>
            && SegmentStart(path) <= |r| && path[|r|] == ';'
            && '/' !in path[|r|..] && ';' !in path[SegmentStart(path)..|r|])
  {
    var start := SegmentStart(path);
    var semi := IndexOf(path[start..], ';');
    if semi.Some? {
      assert path[start + semi.value..] == path[start..][semi.value..];
      assert path[start..start + semi.value] == path[start..][..semi.value];
    }
  }

  /** The path component of `urlparse(url)`: after the scheme and the
      `//netloc`, before the fragment and the query, and without the
      `;params` of the last segment when the scheme allows them. */
  function UrlPath(url: string): (path: string)
    ensures '?' !in path && '#' !in path
  {
    var split := BeforeQuery(AfterNetloc(AfterScheme(url)));
    if SchemeName(url) in UsesParams then
      var cut := CutParams(split);
      assert forall k :: 0 <= k < |cut| ==> cut[k] == split[k];
      cut
    else split
  }

  /** A path whose part after some '/' holds no ';' has no params. */
  lemma CutParamsOfTail(pre: string, tail: string)
    requires ';' !in tail
    ensures CutParams(pre + "/" + tail) == pre + "/" + tail
  {
    var path := pre + "/" + tail;
    var start := SegmentStart(path);
    assert path[|pre|] == '/';
    assert start >= |pre|;
    CutParamsAtFirstSemicolon(path);
    assert forall k :: start <= k < |path| ==> path[k] == ("/" + tail)[k - |pre|];
    assert ';' !in path[start..];
  }

  // --------------------------------------------------------- object names

  /** The final component of a POSIX path, as `PurePath.name` gives it. */
  function BaseName(path: string): (name: string)
    ensures '/' !in name
  {
    var trimmed := StripTrailing(path, '/');
    var p := LastIndexOf(trimmed, '/');
    if p.Some? then trimmed[p.value + 1..] else trimmed
  }

  /** Position of the last `c` in `s`, if any. */
  function LastIndexOf(s: string, c: char): (r: Option<nat>)
    ensures r.None? <==> c !in s
    ensures r.Some? ==> r.value < |s| && s[r.value] == c && c !in s[r.value + 1..]
    decreases |s|
  {
    if |s| == 0 then None
    else if s[|s| - 1] == c then Some(|s| - 1)
    else
      var r := LastIndexOf(s[..|s| - 1], c);
      DropLast(s, c);
      if r.Some? then
        DropLastTail(s, r.value);
        r
      else None
  }

  /** A character other than the last one's is in `s` iff it is in the rest. */
  lemma DropLast(s: string, c: char)
    requires |s| > 0 && s[|s| - 1] != c
    ensures c in s <==> c in s[..|s| - 1]
  {
    assert s == s[..|s| - 1] + [s[|s| - 1]];
  }

  lemma DropLastTail(s: string, i: nat)
    requires i < |s| - 1
    ensures s[i + 1..] == s[..|s| - 1][i + 1..] + [s[|s| - 1]]
  {
  }

  /** `PurePath(filename).suffix`: from the last '.' of the final
      component, unless that dot opens or closes the name. */
  function Suffix(filename: string): (suffix: string)
    ensures suffix == [] || (|suffix| >= 2 && suffix[0] == '.' && '.' !in suffix[1..])
    ensures '/' !in suffix
  {
    var name := BaseName(filename);
    var dot := LastIndexOf(name, '.');
    if dot.Some? && 0 < dot.value < |name| - 1 then
      assert forall x :: x in name[dot.value..] ==> x in name;
      name[dot.value..]
    else []
  }

  /** A non-empty suffix ends the base name without being all of it, and
      the suffix is empty exactly when the base name has no '.', ends with
      one, or has its only '.' in front. */
  lemma SuffixOfBaseName(filename: string)
    ensures var name, suffix := BaseName(filename), Suffix(filename);
      && (suffix != [] ==> |suffix| < |name| && name[|name| - |suffix|..] == suffix)
      && (suffix == [] <==> '.' !in name || name[|name| - 1] == '.' || (name[0] == '.' && '.' !in name[1..]))
  {
    var name := BaseName(filename);
    var dot := LastIndexOf(name, '.');
    if dot.Some? && 0 < dot.value < |name| - 1 {
      assert name[dot.value] in name[1..];
      assert name[|name| - 1] in name[dot.value + 1..];
    } else if dot.Some? && dot.value == 0 {
      assert name[1..] == name[dot.value + 1..];
    }
  }

  /** `generate_name`: the random hex identifier (a parameter) followed by
      the suffix of the uploaded file's name. */
  function GenerateName(unique: string, filename: Option<string>): (name: string)
    ensures StartsWith(name, unique)
    ensures filename.None? ==> name == unique
    ensures filename.Some? ==> name == unique + Suffix(filename.value)
  {
    var suffix := if filename.Some? then Suffix(filename.value) else "";
    assert (unique + suffix)[..|unique|] == unique;
    unique + suffix
  }

  /** `build_base_url`: the public endpoint if set, the endpoint
      otherwise; `http://` in front when there is no scheme; no trailing
      '/'. */
  function BuildBaseUrl(publicEndpoint: Option<string>, endpoint: Option<string>): (base: string)
    ensures HasScheme(base)
    ensures |base| > 0 && base[|base| - 1] != '/'
    ensures TrimmedOf(base, WithScheme(Chosen(publicEndpoint, endpoint)))
    ensures Finished(Chosen(publicEndpoint, endpoint)) ==> base == Chosen(publicEndpoint, endpoint)
    ensures Chosen(publicEndpoint, endpoint) == "" ==> base == "http:"
  {
    BaseOf(Chosen(publicEndpoint, endpoint))
  }

  /** `MINIO_PUBLIC_ENDPOINT or MINIO_ENDPOINT`: a non-empty public
      endpoint wins; an endpoint that is not set is taken as empty. */
  function Chosen(publicEndpoint: Option<string>, endpoint: Option<string>): (chosen: string)
    ensures publicEndpoint.Some? && publicEndpoint.value != "" ==> chosen == publicEndpoint.value
    ensures (publicEndpoint.None? || publicEndpoint.value == "") && endpoint.Some? ==> chosen == endpoint.value
    ensures (publicEndpoint.None? || publicEndpoint.value == "") && endpoint.None? ==> chosen == ""
  {
    if publicEndpoint.Some? && publicEndpoint.value != "" then publicEndpoint.value
    else if endpoint.Some? then endpoint.value
    else ""
  }

  /** The base URL of one endpoint: with a scheme, trailing slashes removed. */
  function BaseOf(chosen: string): (base: string)
    ensures HasScheme(base)
    ensures |base| > 0 && base[|base| - 1] != '/'
    ensures TrimmedOf(base, WithScheme(chosen))
    ensures Finished(chosen) ==> base == chosen
    ensures chosen == "" ==> base == "http:"
  {
    var withScheme := WithScheme(chosen);
    TrailingSlashKeepsScheme(withScheme);
    BaseOfChosen(chosen);
    StripTrailing(withScheme, '/')
  }

  /** The trimmed base of a finished URL is the URL itself, and of an empty
      one `http:`. */
  lemma BaseOfChosen(chosen: string)
    ensures Finished(chosen) ==> StripTrailing(WithScheme(chosen), '/') == chosen
    ensures chosen == "" ==> StripTrailing(WithScheme(chosen), '/') == "http:"
  {
    if chosen == "" {
      EmptyBase();
    }
  }

  lemma EmptyBase()
    ensures StripTrailing(WithScheme(""), '/') == "http:"
  {
    EmptyWithScheme();
    HttpTrimmed();
  }

  lemma EmptyWithScheme()
    ensures WithScheme("") == "http://"
  {
    assert !HasScheme("");
  }

  lemma HttpTrimmed()
    ensures StripTrailing("http://", '/') == "http:"
  {
    var u: string := "http://";
    assert u[..|u| - 1] == "http:/" && u[|u| - 1] == '/';
    var v: string := "http:/";
    assert v[..|v| - 1] == "http:" && v[|v| - 1] == '/';
  }

  /** `url` is `base` followed by nothing but slashes. */
  predicate TrimmedOf(base: string, url: string)
  {
    && |base| <= |url| && url[..|base|] == base
    && forall k :: |base| <= k < |url| ==> url[k] == '/'
  }

  /** A URL that already has a scheme and does not end with '/'. */
  predicate Finished(url: string)
  {
    HasScheme(url) && |url| > 0 && url[|url| - 1] != '/'
  }

  /** A URL not ending with '/' trims only to itself. */
  lemma TrimmedOfItself(base: string, url: string)
    requires TrimmedOf(base, url)
    requires |url| > 0 && url[|url| - 1] != '/'
    ensures base == url
  {
  }

  /** `http://` in front of a URL without a scheme, its leading slashes dropped. */
  function WithScheme(url: string): (r: string)
    ensures HasScheme(r)
    ensures HasScheme(url) ==> r == url
    ensures !HasScheme(url) ==> r == "http://" + StripLeading(url, '/')
  {
    if HasScheme(url) then url
    else
      var host := StripLeading(url, '/');
      HttpHasScheme(host);
      "http://" + host
  }

  lemma HttpHasScheme(host: string)
    ensures HasScheme("http://" + host)
  {
    var url := "http://" + host;
    assert url[..4] == "http" && url[4] == ':';
    IndexOfPrefix("http", ':', "//" + host);
    assert url == "http" + [':'] + ("//" + host);
  }

  /** `IndexOf` finds the first `c` of `a + [c] + b` right after `a`. */
  lemma {:induction false} IndexOfPrefix(a: string, c: char, b: string)
    requires c !in a
    ensures IndexOf(a + [c] + b, c) == Some(|a|)
    decreases |a|
  {
    if |a| > 0 {
      assert (a + [c] + b)[1..] == a[1..] + [c] + b;
      IndexOfPrefix(a[1..], c, b);
    }
  }

  /** Stripping trailing slashes never reaches the ':' that ends the scheme. */
  lemma TrailingSlashKeepsScheme(url: string)
    requires HasScheme(url)
    ensures var r := StripTrailing(url, '/'); HasScheme(r) && |r| > 0
  {
    var colon := IndexOf(url, ':').value;
    var r := StripTrailing(url, '/');
    assert |r| > colon;
    assert url == r[..colon] + [':'] + url[colon + 1..];
    assert r == r[..colon] + [':'] + r[colon + 1..];
    IndexOfPrefix(r[..colon], ':', r[colon + 1..]);
    IndexOfPrefix(r[..colon], ':', url[colon + 1..]);
  }

  /** The URL a public upload is served under. */
  function PublicUrl(base: string, bucket: string, objectName: string): string
  {
    base + "/" + bucket + "/" + objectName
  }

  /** `extract_object_info_from_url` on the URL path with its leading
      slashes dropped: the first segment is the bucket, the (decoded) rest
      the object name; both must be non-empty. */
  function SplitObjectPath(path: string, unquote: string -> string): (r: Result<(string, string)>)
    ensures r.Err? ==> r.error == MinioNotValidUrl
    ensures r.Err? <==> !SplitsAtSlash(path)
    ensures r.Ok? ==>
      var b := r.value.0;
      && b != [] && '/' !in b && |b| + 1 < |path|
      && path[..|b|] == b && path[|b|] == '/'
      && r.value.1 == unquote(path[|b| + 1..])
  {
    var slash := IndexOf(path, '/');
    if path == [] || slash.None? then Err(MinioNotValidUrl)
    else
      var bucket := path[..slash.value];
      var rest := path[slash.value + 1..];
      if bucket == [] || rest == [] then Err(MinioNotValidUrl)
      else Ok((bucket, unquote(rest)))
  }

  /** `extract_object_info_from_url`: split the URL path, leading slashes
      dropped. */
  function ExtractObjectInfo(url: string, unquote: string -> string): Result<(string, string)>
  {
    SplitObjectPath(ObjectPath(url), unquote)
  }

  /** What `extract_object_info_from_url` gives: the bucket is the first
      segment of the URL path once its leading slashes are dropped, the
      object name the decoded rest; a path that does not split that way
      with both sides non-empty is `MinioNotValidUrl`. */
  lemma ExtractObjectInfoSplits(url: string, unquote: string -> string)
    ensures var r := ExtractObjectInfo(url, unquote);
      && (r.Err? ==> r.error == MinioNotValidUrl)
      && (r.Err? <==> !SplitsAtSlash(ObjectPath(url)))
      && (r.Ok? ==>
            var path := ObjectPath(url);
            var b := r.value.0;
            && b != [] && '/' !in b
            && |b| + 1 < |path| && path[..|b| + 1] == b + "/"
            && r.value.1 == unquote(path[|b| + 1..]))
  {
    var r := ExtractObjectInfo(url, unquote);
    if r.Ok? {
      BucketSlash(ObjectPath(url), r.value.0);
    }
  }

  lemma BucketSlash(path: string, b: string)
    requires |b| + 1 < |path| && path[..|b|] == b && path[|b|] == '/'
    ensures path[..|b| + 1] == b + "/"
  {
  }

  /** The URL path without its leading slashes. */
  function ObjectPath(url: string): string
  {
    StripLeading(UrlPath(url), '/')
  }

  /** The object path is the URL path after its leading slashes, so it
      holds no query or fragment either. */
  lemma ObjectPathOfUrl(url: string)
    ensures var path, op := UrlPath(url), ObjectPath(url);
      && |op| <= |path| && op == path[|path| - |op|..]
      && (forall k :: 0 <= k < |path| - |op| ==> path[k] == '/')
      && (|op| > 0 ==> op[0] != '/')
      && '?' !in op && '#' !in op
  {
    var path := UrlPath(url);
    TailChars(path, StripLeading(path, '/'));
  }

  /** A tail of `s` holds only characters of `s`. */
  lemma TailChars(s: string, t: string)
    requires |t| <= |s| && t == s[|s| - |t|..]
    ensures forall x :: x in t ==> x in s
  {
  }

  /** `path` has a '/' with something on both sides of its first one. */
  predicate SplitsAtSlash(path: string)
  {
    var slash := IndexOf(path, '/');
    slash.Some? && 0 < slash.value < |path| - 1
  }

  /** `FirstOfAny` stops at the first member of `cs` after `a`. */
  lemma {:induction false} FirstOfAnyPrefix(a: string, c: char, b: string, cs: set<char>)
    requires forall k :: 0 <= k < |a| ==> a[k] !in cs
    requires c in cs
    ensures FirstOfAny(a + [c] + b, cs) == |a|
    decreases |a|
  {
    if |a| > 0 {
      assert (a + [c] + b)[1..] == a[1..] + [c] + b;
      FirstOfAnyPrefix(a[1..], c, b, cs);
    }
  }

  lemma AfterSchemeOf(scheme: string, rest: string)
    requires |scheme| > 0 && IsAsciiAlpha(scheme[0])
    requires forall k :: 0 <= k < |scheme| ==> IsSchemeChar(scheme[k])
    ensures AfterScheme(scheme + [':'] + rest) == rest
  {
    var url := scheme + [':'] + rest;
    IndexOfPrefix(scheme, ':', rest);
    assert forall k :: 0 <= k < |scheme| ==> url[k] == scheme[k];
    assert HasScheme(url);
    assert url[|scheme| + 1..] == rest;
  }

  lemma AfterNetlocOf(host: string, p: string)
    requires forall k :: 0 <= k < |host| ==> host[k] !in {'/', '?', '#'}
    ensures AfterNetloc("//" + host + "/" + p) == "/" + p
  {
    var rest := "//" + host + "/" + p;
    assert rest[..2] == "//";
    assert rest[2..] == host + ['/'] + p;
    FirstOfAnyPrefix(host, '/', p, {'/', '?', '#'});
    assert rest[2..][|host|..] == "/" + p;
  }

  lemma {:induction false} FirstOfAnyAbsent(s: string, cs: set<char>)
    requires forall k :: 0 <= k < |s| ==> s[k] !in cs
    ensures FirstOfAny(s, cs) == |s|
    decreases |s|
  {
    if |s| > 0 {
      FirstOfAnyAbsent(s[1..], cs);
    }
  }

  lemma BeforeQueryOfPath(s: string)
    requires '?' !in s && '#' !in s
    ensures BeforeQuery(s) == s
  {
    FirstOfAnyAbsent(s, {'#'});
    FirstOfAnyAbsent(s, {'?'});
  }

  /** Before the params are cut, the path of `scheme://host/p` is `/p`
      when neither host nor `p` holds a delimiter. */
  lemma SplitPathOfHostUrl(scheme: string, host: string, p: string)
    requires |scheme| > 0 && IsAsciiAlpha(scheme[0])
    requires forall k :: 0 <= k < |scheme| ==> IsSchemeChar(scheme[k])
    requires forall k :: 0 <= k < |host| ==> host[k] !in {'/', '?', '#'}
    requires '?' !in p && '#' !in p
    ensures BeforeQuery(AfterNetloc(AfterScheme(scheme + "://" + host + "/" + p))) == "/" + p
  {
    var rest := "//" + host + "/" + p;
    SchemeSeparator(scheme, host, p);
    AfterSchemeOf(scheme, rest);
    AfterNetlocOf(host, p);
    BeforeQueryOfPath("/" + p);
  }

  /** The path of `scheme://host/bucket/objectName` is `/bucket/objectName`
      when neither host nor names hold a delimiter and the object name no
      ';'. */
  lemma UrlPathOfHostUrl(scheme: string, host: string, bucket: string, objectName: string)
    requires |scheme| > 0 && IsAsciiAlpha(scheme[0])
    requires forall k :: 0 <= k < |scheme| ==> IsSchemeChar(scheme[k])
    requires forall k :: 0 <= k < |host| ==> host[k] !in {'/', '?', '#'}
    requires '?' !in bucket && '#' !in bucket
    requires '?' !in objectName && '#' !in objectName && ';' !in objectName
    ensures UrlPath(scheme + "://" + host + "/" + (bucket + "/" + objectName)) == "/" + (bucket + "/" + objectName)
  {
    var p := bucket + "/" + objectName;
    var url := scheme + "://" + host + "/" + p;
    assert '?' !in p && '#' !in p;
    SplitPathOfHostUrl(scheme, host, p);
    assert "/" + p == ("/" + bucket) + "/" + objectName;
    CutParamsOfTail("/" + bucket, objectName);
    UncutPath(url);
  }

  /** Without params to cut, the path is what `urlsplit` gives. */
  lemma UncutPath(url: string)
    requires var split := BeforeQuery(AfterNetloc(AfterScheme(url))); CutParams(split) == split
    ensures UrlPath(url) == BeforeQuery(AfterNetloc(AfterScheme(url)))
  {
  }

  lemma SchemeSeparator(scheme: string, host: string, p: string)
    ensures scheme + "://" + host + "/" + p == scheme + [':'] + ("//" + host + "/" + p)
  {
    assert "://" == [':'] + "//";
  }

  /** The URL `save_file` returns for a public upload leads `delete_file`
      back to the same bucket and object, whenever the endpoint is a bare
      `scheme://host`, the names hold no URL delimiter, the object name no
      ';' (which would open the params) and decoding leaves the object name
      alone. */
  lemma PublicUrlRoundTrip(scheme: string, host: string, bucket: string, objectName: string,
                           unquote: string -> string)
    requires |scheme| > 0 && IsAsciiAlpha(scheme[0])
    requires forall k :: 0 <= k < |scheme| ==> IsSchemeChar(scheme[k])
    requires forall k :: 0 <= k < |host| ==> host[k] !in {'/', '?', '#'}
    requires bucket != [] && '/' !in bucket && '?' !in bucket && '#' !in bucket
    requires objectName != [] && '?' !in objectName && '#' !in objectName && ';' !in objectName
    requires unquote(objectName) == objectName
    ensures ExtractObjectInfo(PublicUrl(scheme + "://" + host, bucket, objectName), unquote) == Ok((bucket, objectName))
  {
    var p := bucket + "/" + objectName;
    assert PublicUrl(scheme + "://" + host, bucket, objectName) == scheme + "://" + host + "/" + p;
    UrlPathOfHostUrl(scheme, host, bucket, objectName);
    assert p[0] == bucket[0];
    StripOneLeading('/', p);
    SplitOfBucketPath(bucket, objectName, unquote);
  }

  lemma StripOneLeading(c: char, s: string)
    requires |s| > 0 && s[0] != c
    ensures StripLeading([c] + s, c) == s
  {
    assert ([c] + s)[1..] == s;
  }

  lemma SplitOfBucketPath(bucket: string, objectName: string, unquote: string -> string)
    requires bucket != [] && '/' !in bucket && objectName != []
    ensures SplitObjectPath(bucket + "/" + objectName, unquote) == Ok((bucket, unquote(objectName)))
  {
    var p := bucket + "/" + objectName;
    assert p == bucket + ['/'] + objectName;
    IndexOfPrefix(bucket, '/', objectName);
    assert p[..|bucket|] == bucket && p[|bucket| + 1..] == objectName;
  }

  // --------------------------------------------------------------- upload

  /** What the object store was asked to keep. */
  datatype ObjectPut = ObjectPut(bucket: string, objectName: string, contentType: string)

  datatype Saved = Saved(result: Result<string>, put: Option<ObjectPut>)

  /** The outcome of each call to the object store during one upload. */
  datatype StoreCalls = StoreCalls(
    ensureBucketError: Option<string>,   // the S3 error code, if the bucket check or creation failed
    putFails: bool,
    presignedUrl: string)

  function ContentType(declared: Option<string>): (t: string)
    ensures t != []
  {
    if declared.Some? && declared.value != "" then declared.value else DefaultContentType
  }

  /** `save_file`: make sure the bucket exists, store the object under a
      fresh name and return its public (or presigned) URL. */
  function SaveFile(bucket: string, public: bool, base: string, unique: string, filename: Option<string>,
                    declaredType: Option<string>, calls: StoreCalls): (s: Saved)
    ensures s.result.Ok? <==> s.put.Some? && !calls.putFails
    ensures calls.ensureBucketError.Some? && calls.ensureBucketError.value !in BucketTakenCodes ==>
      s == Saved(Err(S3Failure), None)
    ensures calls.ensureBucketError.None? || calls.ensureBucketError.value in BucketTakenCodes ==> s.put.Some?
    ensures s.put.Some? ==>
      s.put.value == ObjectPut(bucket, GenerateName(unique, filename), ContentType(declaredType))
    ensures s.result.Err? && s.put.Some? ==> s.result.error == MinioUploadFile
    ensures s.result.Ok? && public ==> s.result.value == PublicUrl(base, bucket, GenerateName(unique, filename))
    ensures s.result.Ok? && !public ==> s.result.value == calls.presignedUrl
  {
    if calls.ensureBucketError.Some? && calls.ensureBucketError.value !in BucketTakenCodes then
      Saved(Err(S3Failure), None)
    else
      var objectName := GenerateName(unique, filename);
      var put := ObjectPut(bucket, objectName, ContentType(declaredType));
      if calls.putFails then Saved(Err(MinioUploadFile), Some(put))
      else if public then Saved(Ok(PublicUrl(base, bucket, objectName)), Some(put))
      else Saved(Ok(calls.presignedUrl), Some(put))
  }

  /** `delete_file`: the object the URL names is removed; a URL that names
      none is `MinioNotValidUrl`, a failed removal `MinioFileDelete`. */
  function DeleteFile(url: string, unquote: string -> string, removeFails: bool): (r: Result<(string, string)>)
    ensures ExtractObjectInfo(url, unquote).Err? ==> r == Err(MinioNotValidUrl)
    ensures ExtractObjectInfo(url, unquote).Ok? && removeFails ==> r == Err(MinioFileDelete)
    ensures r.Ok? ==> r == ExtractObjectInfo(url, unquote)
    ensures ExtractObjectInfo(url, unquote).Ok? && !removeFails ==> r == ExtractObjectInfo(url, unquote)
  {
    var info := ExtractObjectInfo(url, unquote);
    if info.Err? then Err(MinioNotValidUrl)
    else if removeFails then Err(MinioFileDelete)
    else info
  }
}
