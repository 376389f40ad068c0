/**
 * The source-reference validator: decides whether a caller-supplied string
 * naming a content source (a domain, an http(s) URL or a `provider/dataset`
 * id) may be sent to the server, validates a list of them, and formats the
 * error message for the ones that fail.
 */
module Validation {
  import opened Text
  import opened Hostnames

  const MaxDomainLength := 253

  /** `is_valid_domain`: the label grammar over the whole string (up to one
      final newline, which `$` lets through), at most 253 characters. */
  predicate IsValidDomain(domain: string) {
    IsDomainName(WithoutFinalNewline(domain)) && |domain| <= MaxDomainLength
  }

  /** Characters that end the network location of a URL. */
  predicate IsNetlocEnd(c: char) {
    c == '/' || c == '?' || c == '#'
  }

  /** Where the network location that follows `//` stops: at the first `/`, `?` or `#`. */
  function NetlocLength(rest: string): (n: nat)
    ensures n <= |rest|
    ensures forall k :: 0 <= k < n ==> !IsNetlocEnd(rest[k])
    ensures n == |rest| || IsNetlocEnd(rest[n])
  {
    if rest == [] || IsNetlocEnd(rest[0]) then 0 else 1 + NetlocLength(rest[1..])
  }

  /** `is_valid_url_with_path`, with `urlparse` read as: the scheme is the
      text before the first `:` (lower-cased), and when `//` follows it the
      netloc is the longest run after it free of `/`, `?` and `#`. Valid iff
      the scheme is `http` or `https` and the netloc is non-empty. */
  predicate IsValidUrlWithPath(url: string) {
    ':' in url
    && var i := IndexOf(url, ':');
    LowerAscii(url[..i]) in {"http", "https"}
    && StartsWith(url[i + 1..], "//")
    && NetlocLength(url[i + 3..]) > 0
  }

  predicate IsDatasetChar(c: char) {
    IsAlnum(c) || c == '_' || c == '-'
  }

  /** One side of a dataset id: `[a-zA-Z0-9_-]+`. */
  predicate IsDatasetPart(p: string) {
    p != [] && forall k :: 0 <= k < |p| ==> IsDatasetChar(p[k])
  }

  /** Two dataset parts around one `/`. */
  predicate IsDatasetPattern(d: string) {
    '/' in d
    && var i := IndexOf(d, '/');
    IsDatasetPart(d[..i]) && IsDatasetPart(d[i + 1..])
  }

  /** `is_valid_dataset_name`: `^[a-zA-Z0-9_-]+/[a-zA-Z0-9_-]+$`, which also
      lets one final newline through. */
  predicate IsValidDatasetName(dataset: string) {
    IsDatasetPattern(WithoutFinalNewline(dataset))
  }

  predicate HasHttpScheme(s: string) {
    StartsWith(s, "http://") || StartsWith(s, "https://")
  }

  /** `validate_source`: the first matching rule decides. */
  predicate ValidateSource(source: string) {
    if source == [] then false
    else if HasHttpScheme(source) then IsValidUrlWithPath(source)
    else if Count(source, '/') == 1 then IsValidDatasetName(source)
    else if '.' in source then IsValidDomain(source)
    else false
  }

  /** The empty string is never a valid source. */
  lemma EmptySourceInvalid()
    ensures !ValidateSource([])
  {
  }

  /** An http(s) reference is valid exactly when something other than `/`, `?`
      or `#` follows `://`; so `https:///path` is rejected. */
  lemma UrlSourceValid(scheme: string, rest: string)
    requires scheme == "http://" || scheme == "https://"
    ensures ValidateSource(scheme + rest) <==> rest != [] && !IsNetlocEnd(rest[0])
  {
    var name := if scheme == "http://" then "http" else "https";
    var s := name + "://" + rest;
    assert scheme + rest == s;
    assert HasHttpScheme(s) by {
      assert s[..|scheme|] == scheme;
    }
    HttpBranch(s);
    UrlWithPathParts(name, rest);
    LowerAsciiKeeps(name);
    assert NetlocLength(rest) > 0 <==> rest != [] && !IsNetlocEnd(rest[0]);
  }

  /** A reference with an http(s) prefix is judged by the URL rule alone. */
  lemma HttpBranch(s: string)
    requires HasHttpScheme(s)
    ensures ValidateSource(s) == IsValidUrlWithPath(s)
  {
  }

  /** How `is_valid_url_with_path` reads `name://rest` for a scheme name without a colon. */
  lemma UrlWithPathParts(name: string, rest: string)
    requires ':' !in name
    ensures IsValidUrlWithPath(name + "://" + rest) <==> LowerAscii(name) in {"http", "https"} && NetlocLength(rest) > 0
  {
    SplitAtSchemeColon(name, rest);
    PrefixOfConcat("//", rest);
  }

  lemma SplitAtSchemeColon(name: string, rest: string)
    requires ':' !in name
    ensures var s := name + "://" + rest;
            ':' in s && IndexOf(s, ':') == |name| && s[..|name|] == name
            && s[|name| + 1..] == "//" + rest && s[|name| + 3..] == rest
  {
    var s := name + "://" + rest;
    assert s[|name|] == ':';
    IndexOfFirst(s, ':', |name|);
    assert s[|name| + 1..] == "//" + rest;
  }

  /** A scheme-less reference with one slash is valid exactly when both sides
      are non-empty runs of letters, digits, `_` and `-`. */
  lemma DatasetSourceValid(a: string, b: string)
    requires '/' !in a && '/' !in b
    ensures ValidateSource(a + "/" + b) <==> IsDatasetPart(a) && IsDatasetPart(WithoutFinalNewline(b))
  {
    var s := a + "/" + b;
    NoSchemeAroundSlash(a, b);
    assert Count(s, '/') == 1 by {
      CountConcat(a, "/" + b, '/');
      CountConcat("/", b, '/');
      assert a + ("/" + b) == s;
    }
    var wb := WithoutFinalNewline(b);
    var w := a + "/" + wb;
    assert WithoutFinalNewline(s) == w by {
      if b != [] && b[|b| - 1] == '\n' {
        assert s == w + "\n";
      }
    }
    assert IsDatasetPattern(w) <==> IsDatasetPart(a) && IsDatasetPart(wb) by {
      assert w[|a|] == '/';
      assert w[..|a|] == a;
      assert w[|a| + 1..] == wb;
      IndexOfFirst(w, '/', |a|);
    }
  }

  /** Every `provider/dataset` id made of two dataset parts is accepted. */
  lemma DatasetIdAccepted(a: string, b: string)
    requires IsDatasetPart(a) && IsDatasetPart(b)
    ensures ValidateSource(a + "/" + b)
  {
    assert '/' !in a && '/' !in b;
    assert WithoutFinalNewline(b) == b by {
      assert IsDatasetChar(b[|b| - 1]);
    }
    DatasetSourceValid(a, b);
  }

  /** `$` lets a dataset id with one trailing newline through. */
  lemma DatasetWithNewlineAccepted(a: string, b: string)
    requires IsDatasetPart(a) && IsDatasetPart(b)
    ensures ValidateSource(a + "/" + b + "\n")
  {
    assert '/' !in a && '/' !in b + "\n";
    DatasetSourceValid(a, b + "\n");
    assert a + "/" + (b + "\n") == a + "/" + b + "\n";
  }
  /** An `http://` or `https://` reference holds a colon and two slashes side by side. */
  lemma SchemeShape(s: string)
    ensures HasHttpScheme(s) ==> ':' in s && exists j :: 0 <= j < |s| - 1 && s[j] == '/' && s[j + 1] == '/'
  {
    if StartsWith(s, "http://") {
      assert s[4] == ':' && s[5] == '/' && s[6] == '/';
    } else if StartsWith(s, "https://") {
      assert s[5] == ':' && s[6] == '/' && s[7] == '/';
    }
  }

  /** `a + "/" + b` with no other slash cannot start with `http://` or `https://`. */
  lemma NoSchemeAroundSlash(a: string, b: string)
    requires '/' !in a && '/' !in b
    ensures !HasHttpScheme(a + "/" + b)
  {
    var s := a + "/" + b;
    SchemeShape(s);
    forall j | 0 <= j < |s| - 1 ensures !(s[j] == '/' && s[j + 1] == '/') {
      if j < |a| {
        assert s[j] == a[j];
      } else if j == |a| {
        assert s[j + 1] == b[0];
      } else {
        assert s[j] == b[j - |a| - 1];
      }
    }
  }

  /** A scheme-less reference whose slash count is not one and that holds a
      dot is judged by the domain grammar and the 253-character bound. */
  lemma DomainSourceValid(s: string)
    requires !HasHttpScheme(s) && Count(s, '/') != 1 && '.' in s
    ensures ValidateSource(s) <==> IsDomainName(WithoutFinalNewline(s)) && |s| <= MaxDomainLength
  {
  }

  /** Every dotted name of at most 253 characters in the label grammar is accepted. */
  lemma DomainNameAccepted(s: string)
    requires IsDomainName(s) && '.' in s && |s| <= MaxDomainLength
    ensures ValidateSource(s)
  {
    DomainNameChars(s);
    assert '/' !in s;
    assert Count(s, '/') == 0;
    assert WithoutFinalNewline(s) == s;
    SchemeShape(s);
  }

  /** `$` lets a dotted name with one trailing newline through as well. */
  lemma DomainWithNewlineAccepted(s: string)
    requires IsDomainName(s) && '.' in s && |s| < MaxDomainLength
    ensures ValidateSource(s + "\n")
  {
    var t := s + "\n";
    DomainNameChars(s);
    assert '/' !in t && '.' in t;
    CountConcat(s, "\n", '/');
    assert WithoutFinalNewline(t) == s;
    SchemeShape(t);
  }

  /** A scheme-less reference with two or more slashes is never valid. */
  lemma MultiSlashInvalid(s: string)
    requires !HasHttpScheme(s) && Count(s, '/') >= 2
    ensures !ValidateSource(s)
  {
    var w := WithoutFinalNewline(s);
    if w != s {
      CountConcat(w, "\n", '/');
    }
    assert '/' in w;
    var k :| 0 <= k < |w| && w[k] == '/';
    assert !IsHostChar(w[k]);
    DomainNameOnlyHostChars(w);
    assert !IsDomainName(w);
    assert ValidateSource(s) == ('.' in s && IsValidDomain(s));
  }

  /** A non-empty word with neither a dot nor a slash is never valid. */
  lemma BareWordInvalid(s: string)
    requires '.' !in s && '/' !in s
    ensures !ValidateSource(s)
  {
    SchemeShape(s);
  }

  /** The documented rejections: a domain with a path is read as a dataset id
      and fails on the dot, ... */
  lemma DomainWithPathExampleInvalid()
    ensures !ValidateSource("example.com/blog")
  {
    DatasetSourceValid("example.com", "blog");
    assert "example.com" + "/" + "blog" == "example.com/blog";
    assert !IsDatasetChar("example.com"[7]);
  }

  /** ... a word without a dot or a slash fails, ... */
  lemma BareWordExampleInvalid()
    ensures !ValidateSource("not-a-url")
  {
    BareWordInvalid("not-a-url");
  }

  /** ... and a URL whose authority is empty fails. */
  lemma EmptyAuthorityExampleInvalid()
    ensures !ValidateSource("https:///path")
  {
    UrlSourceValid("https://", "/path");
    assert "https://" + "/path" == "https:///path";
  }

  /** The documented domain example is accepted. */
  lemma DomainExampleValid()
    ensures ValidateSource("example.com")
  {
    assert '.' !in "example" && '.' !in "com";
    assert IsLabel("example");
    assert IsLabel("com");
    SingleLabel("example");
    SingleLabel("com");
    DomainNameAround("example", "com");
    assert "example" + "." + "com" == "example.com";
    assert "example.com"[7] == '.';
    DomainNameAccepted("example.com");
  }

  /** A `/` with a dataset part on each side makes an accepted dataset id. */
  lemma DatasetIdAt(s: string, i: nat)
    requires i < |s| && s[i] == '/'
    requires IsDatasetPart(s[..i]) && IsDatasetPart(s[i + 1..])
    ensures ValidateSource(s)
  {
    assert s == s[..i] + "/" + s[i + 1..];
    DatasetIdAccepted(s[..i], s[i + 1..]);
  }

  /** The documented dataset example is accepted. */
  lemma DatasetExampleValid()
    ensures ValidateSource("valyu/valyu-arxiv")
  {
    DatasetExampleAt("valyu/valyu-arxiv");
  }

  lemma DatasetExampleAt(s: string)
    requires s == "valyu/valyu-arxiv"
    ensures ValidateSource(s)
  {
    DatasetExampleProvider(s);
    DatasetExampleName(s);
    DatasetIdAt(s, 5);
  }

  lemma DatasetExampleProvider(s: string)
    requires s == "valyu/valyu-arxiv"
    ensures s[5] == '/' && IsDatasetPart(s[..5])
  {
    forall k | 0 <= k < 5
      ensures IsDatasetChar(s[..5][k])
    {
    }
  }

  lemma DatasetExampleName(s: string)
    requires s == "valyu/valyu-arxiv"
    ensures IsDatasetPart(s[6..])
  {
    forall k | 0 <= k < |s| - 6
      ensures IsDatasetChar(s[6..][k])
    {
      assert s[6..][k] == s[k + 6];
    }
  }

  lemma DoubleDotNoDomainName()
    ensures !IsDomainName("invalid..domain")
  {
    EmptyLabelRejected("invalid", "domain");
    assert "invalid" + ".." + "domain" == "invalid..domain";
  }

  lemma DoubleDotNoSlash()
    ensures '/' !in "invalid..domain"
  {
  }

  lemma DoubleDotShape(s: string)
    requires s == "invalid..domain"
    ensures '.' in s && Count(s, '/') == 0 && WithoutFinalNewline(s) == s && !HasHttpScheme(s)
  {
    assert '.' in s by {
      assert s[7] == '.';
    }
    assert Count(s, '/') == 0 by {
      DoubleDotNoSlash();
    }
    assert WithoutFinalNewline(s) == s by {
      assert s[|s| - 1] == 'n';
    }
    assert !HasHttpScheme(s) by {
      assert s[0] == 'i';
    }
  }

  /** A dotted, slash-free reference without a scheme that is not a domain name is rejected. */
  lemma DottedNonDomainInvalid(s: string)
    requires '.' in s && Count(s, '/') == 0 && WithoutFinalNewline(s) == s && !HasHttpScheme(s)
    requires !IsDomainName(s)
    ensures !ValidateSource(s)
  {
    DomainSourceValid(s);
  }

  /** The documented rejection of an empty label. */
  lemma DoubleDotExampleInvalid()
    ensures !ValidateSource("invalid..domain")
  {
    DoubleDotNoDomainName();
    DoubleDotShape("invalid..domain");
    DottedNonDomainInvalid("invalid..domain");
  }

  /** The invalid entries of `sources`, in their original order. */
  function InvalidSources(sources: seq<string>): seq<string>
  {
    if sources == [] then []
    else
      var last := sources[|sources| - 1];
      InvalidSources(sources[..|sources| - 1]) + (if ValidateSource(last) then [] else [last])
  }

  /** The invalid list holds exactly the inputs that fail `ValidateSource`. */
  lemma {:induction false} InvalidSourcesMembers(sources: seq<string>)
    ensures forall x :: x in InvalidSources(sources) <==> x in sources && !ValidateSource(x)
    decreases |sources|
  {
    if sources != [] {
      var init := sources[..|sources| - 1];
      InvalidSourcesMembers(init);
      assert sources == init + [sources[|sources| - 1]];
    }
  }

  /** Validating a concatenation reports the first part's failures, then the second's. */
  lemma {:induction false} InvalidSourcesAppend(xs: seq<string>, ys: seq<string>)
    ensures InvalidSources(xs + ys) == InvalidSources(xs) + InvalidSources(ys)
    decreases |ys|
  {
    if ys == [] {
      assert xs + ys == xs;
    } else {
      var init := ys[..|ys| - 1];
      assert (xs + ys)[..|xs + ys| - 1] == xs + init;
      InvalidSourcesAppend(xs, init);
    }
  }

  /** `validate_sources`: every entry is checked, failures are collected in
      order, and the flag says whether there were none. */
  method ValidateSources(sources: seq<string>) returns (allValid: bool, invalid: seq<string>)
    ensures invalid == InvalidSources(sources)
    ensures allValid <==> forall k :: 0 <= k < |sources| ==> ValidateSource(sources[k])
    ensures allValid <==> invalid == []
  {
    if |sources| == 0 {
      return true, [];
    }
    invalid := [];
    for i := 0 to |sources|
      invariant invalid == InvalidSources(sources[..i])
    {
      assert sources[..i + 1][..i] == sources[..i];
      if !ValidateSource(sources[i]) {
        invalid := invalid + [sources[i]];
      }
    }
    assert sources[..|sources|] == sources;
    allValid := |invalid| == 0;
    InvalidSourcesMembers(sources);
    if !allValid {
      assert invalid[0] in InvalidSources(sources);
    }
  }

  const DomainExamples: seq<string> :=
    ["example.com", "news.ycombinator.com", "paperswithcode.com", "wikipedia.org"]
  const UrlExamples: seq<string> :=
    ["https://arxiv.org/abs/1706.03762", "https://example.com/path/to/page", "http://domain.com/specific-article"]
  const DatasetExamples: seq<string> :=
    ["valyu/valyu-arxiv", "wiley/wiley-finance-books", "provider/dataset-name"]

  /** `get_source_format_examples`: three categories of accepted formats. */
  function SourceFormatExamples(): (m: map<string, seq<string>>)
    ensures m.Keys == {"domain", "url_with_path", "dataset"}
    ensures forall key | key in m :: |m[key]| >= 3
  {
    map["domain" := DomainExamples, "url_with_path" := UrlExamples, "dataset" := DatasetExamples]
  }

  const MessageHead := "Invalid source format(s): "

  /** `format_validation_error`: lists the rejected entries verbatim, then one
      line per accepted format with its examples. */
  method FormatValidationError(invalidSources: seq<string>) returns (msg: string)
    ensures StartsWith(msg, MessageHead + Join(invalidSources, ", ") + "\n\n")
    ensures forall k :: 0 <= k < |invalidSources| ==> Contains(msg, invalidSources[k])
    ensures forall k :: 0 <= k < |DomainExamples| ==> Contains(msg, DomainExamples[k])
    ensures forall k :: 0 <= k < |UrlExamples| ==> Contains(msg, UrlExamples[k])
    ensures forall k :: 0 <= k < |DatasetExamples| ==> Contains(msg, DatasetExamples[k])
  {
    var examples := SourceFormatExamples();
    msg := MessageHead + Join(invalidSources, ", ") + "\n\n";
    ghost var head := msg;
    msg := msg + "Sources must be formatted as one of:\n";
    ghost var beforeDomains := msg;
    var domainLine := "\U{2022} Domain: " + Join(examples["domain"], ", ") + "\n";
    msg := msg + domainLine;
    ghost var beforeUrls := msg;
    var urlLine := "\U{2022} URL with path: " + Join(examples["url_with_path"], ", ") + "\n";
    msg := msg + urlLine;
    ghost var beforeDatasets := msg;
    var datasetLine := "\U{2022} Dataset name: " + Join(examples["dataset"], ", ");
    msg := msg + datasetLine;

    PrefixOfConcat(head, "Sources must be formatted as one of:\n");
    StartsWithExtend(beforeDomains, head, domainLine);
    StartsWithExtend(beforeUrls, head, urlLine);
    StartsWithExtend(beforeDatasets, head, datasetLine);
    ListedIn(MessageHead, invalidSources, "\n\n");
    forall k | 0 <= k < |invalidSources| ensures Contains(msg, invalidSources[k]) {
      ContainsRight(head, "Sources must be formatted as one of:\n", invalidSources[k]);
      ContainsRight(beforeDomains, domainLine, invalidSources[k]);
      ContainsRight(beforeUrls, urlLine, invalidSources[k]);
      ContainsRight(beforeDatasets, datasetLine, invalidSources[k]);
    }
    assert examples["domain"] == DomainExamples;
    assert examples["url_with_path"] == UrlExamples;
    assert examples["dataset"] == DatasetExamples;
    ListedIn("\U{2022} Domain: ", DomainExamples, "\n");
    forall k | 0 <= k < |DomainExamples| ensures Contains(msg, DomainExamples[k]) {
      ContainsLeft(beforeDomains, domainLine, DomainExamples[k]);
      ContainsRight(beforeUrls, urlLine, DomainExamples[k]);
      ContainsRight(beforeDatasets, datasetLine, DomainExamples[k]);
    }
    ListedIn("\U{2022} URL with path: ", UrlExamples, "\n");
    forall k | 0 <= k < |UrlExamples| ensures Contains(msg, UrlExamples[k]) {
      ContainsLeft(beforeUrls, urlLine, UrlExamples[k]);
      ContainsRight(beforeDatasets, datasetLine, UrlExamples[k]);
    }
    ListedIn("\U{2022} Dataset name: ", DatasetExamples, "");
    forall k | 0 <= k < |DatasetExamples| ensures Contains(msg, DatasetExamples[k]) {
      assert datasetLine + "" == datasetLine;
      ContainsLeft(beforeDatasets, datasetLine, DatasetExamples[k]);
    }
  }

  /** Each item of a comma-joined list occurs in any text that embeds the list. */
  lemma ListedIn(before: string, items: seq<string>, after: string)
    ensures forall k :: 0 <= k < |items| ==> Contains(before + Join(items, ", ") + after, items[k])
  {
    forall k | 0 <= k < |items| ensures Contains(before + Join(items, ", ") + after, items[k]) {
      JoinContains(items, ", ", k);
      ContainsWiden(before, Join(items, ", "), after, items[k]);
    }
  }
}
