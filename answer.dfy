/**
 * The field validators of an answer request: the optional system
 * instructions, the country code, the lists of domains or URLs to include or
 * exclude, and the order of the start and end dates.
 */
module Answer {
  import opened Wrappers
  import opened Text
  import opened Hostnames
  import opened Sequences
  import Validation

  /** Two-letter ISO country codes the service accepts, and `ALL`. */
  const SupportedCountryCodes: set<string> := {
    "ALL", "AR", "AU", "AT", "BE", "BR", "CA", "CL", "DK", "FI", "FR", "DE", "HK",
    "IN", "ID", "IT", "JP", "KR", "MY", "MX", "NL", "NZ", "NO", "CN", "PL", "PT",
    "PH", "RU", "SA", "ZA", "ES", "SE", "CH", "TW", "TR", "GB", "US"
  }

  predicate IsUpperWord(s: string) {
    forall k :: 0 <= k < |s| ==> IsUpperAscii(s[k])
  }

  /** Every supported code is `ALL` or two upper-case ASCII letters. */
  lemma SupportedCodeShape(code: string)
    requires code in SupportedCountryCodes
    ensures code == "ALL" || (|code| == 2 && IsUpperWord(code))
    ensures IsUpperWord(code)
  {
  }

  // ---------------------------------------------------------------
  // system_instructions
  // ---------------------------------------------------------------

  const EmptyInstructionsError := "system_instructions cannot be empty when provided"

  /** `_non_empty_when_present`: absent stays absent; present text is stripped
      and must not be blank. */
  function NonEmptyWhenPresent(v: Option<string>): (r: Result<Option<string>, string>)
    ensures v.None? ==> r == Success(None)
    ensures v.Some? ==> (r.Failure? <==> IsAllSpace(v.value))
    ensures r.Failure? ==> r.error == EmptyInstructionsError
    ensures v.Some? && r.Success? ==>
              r.value.Some? && r.value.value != []
              && !IsSpace(r.value.value[0]) && !IsSpace(r.value.value[|r.value.value| - 1])
              && exists i :: 0 <= i <= |v.value| - |r.value.value| && StrippedAt(v.value, r.value.value, i)
  {
    match v
    case None => Success(None)
    case Some(text) =>
      StripSpec(text);
      var s := Strip(text);
      if s == [] then Failure(EmptyInstructionsError) else Success(Some(s))
  }

  /** Validating the accepted instructions again gives them back unchanged. */
  lemma NonEmptyWhenPresentIdempotent(v: Option<string>)
    requires NonEmptyWhenPresent(v).Success?
    ensures NonEmptyWhenPresent(NonEmptyWhenPresent(v).value) == NonEmptyWhenPresent(v)
  {
    if v.Some? {
      StripIdempotent(v.value);
    }
  }

  // ---------------------------------------------------------------
  // country_code
  // ---------------------------------------------------------------

  const CountryCodeError := "Invalid country_code. Must be a supported 2-letter ISO code or 'ALL'."

  /** `_validate_country_code`: absent stays absent; present text is stripped
      and upper-cased and must then be a supported code. */
  function ValidateCountryCode(v: Option<string>): (r: Result<Option<string>, string>)
    ensures v.None? ==> r == Success(None)
    ensures r.Failure? ==> r.error == CountryCodeError
    ensures r.Success? && v.Some? ==> r.value.Some? && r.value.value in SupportedCountryCodes
  {
    match v
    case None => Success(None)
    case Some(text) =>
      var up := Upper(Strip(text));
      if up !in SupportedCountryCodes then Failure(CountryCodeError) else Success(Some(up))
  }

  /** A present code is accepted exactly when its stripped, upper-cased form is
      supported, and then that form is what is kept. */
  lemma CountryCodeAccepted(text: string)
    ensures ValidateCountryCode(Some(text)).Success? <==> Upper(Strip(text)) in SupportedCountryCodes
    ensures ValidateCountryCode(Some(text)).Success? ==>
              ValidateCountryCode(Some(text)).value == Some(Upper(Strip(text)))
  {
  }

  /** Upper-casing leaves an upper-case ASCII word as it is. */
  lemma {:induction false} UpperKeepsUpperWord(s: string)
    requires IsUpperWord(s)
    ensures Upper(s) == s
  {
    if s != [] {
      UpperKeepsUpperWord(s[1..]);
    }
  }

  /** Validating an accepted code again gives it back unchanged. */
  lemma CountryCodeIdempotent(v: Option<string>)
    requires ValidateCountryCode(v).Success?
    ensures ValidateCountryCode(ValidateCountryCode(v).value) == ValidateCountryCode(v)
  {
    if v.Some? {
      var code := ValidateCountryCode(v).value.value;
      SupportedCodeShape(code);
      assert Strip(code) == code by {
        if code != [] {
          assert !IsSpace(code[0]) && !IsSpace(code[|code| - 1]);
        }
        StripNoop(code);
      }
      UpperKeepsUpperWord(code);
    }
  }

  /** Codes are matched without regard to ASCII letter case. */
  lemma CountryCodeCaseInsensitive(text: string)
    ensures ValidateCountryCode(Some(LowerAscii(text))) == ValidateCountryCode(Some(text))
  {
    StripLowerAscii(text);
    UpperLowerAscii(Strip(text));
  }

  /** A supported code, written in lower case and padded with whitespace, is
      accepted and comes back as the code itself. */
  lemma CountryCodeNormalised(code: string, w1: string, w2: string)
    requires code in SupportedCountryCodes
    requires IsAllSpace(w1) && IsAllSpace(w2)
    ensures ValidateCountryCode(Some(w1 + LowerAscii(code) + w2)) == Success(Some(code))
  {
    SupportedCodeShape(code);
    var l := LowerAscii(code);
    LowerCharSpace(code[0]);
    LowerCharSpace(code[|code| - 1]);
    StripSurrounded(w1, l, w2);
    UpperLowerAscii(code);
    UpperKeepsUpperWord(code);
  }

  lemma UpperLowerChar(c: char)
    ensures UpperChar(LowerChar(c)) == UpperChar(c)
  {
    if IsUpperAscii(c) {
      assert 'a' <= LowerChar(c) <= 'z';
    }
  }

  lemma LowerCharSpace(c: char)
    ensures IsSpace(LowerChar(c)) == IsSpace(c)
  {
  }

  lemma {:induction false} UpperLowerAscii(s: string)
    ensures Upper(LowerAscii(s)) == Upper(s)
  {
    if s != [] {
      var l := LowerAscii(s);
      LowerAsciiSlice(s, 1, |s|);
      assert l[1..] == LowerAscii(s[1..]);
      UpperLowerChar(s[0]);
      UpperLowerAscii(s[1..]);
      assert Upper(l) == UpperChar(l[0]) + Upper(l[1..]);
    }
  }

  /** ASCII lower-casing changes no whitespace, so it commutes with `strip()`. */
  lemma StripLowerAscii(s: string)
    ensures Strip(LowerAscii(s)) == LowerAscii(Strip(s))
  {
    var t := s[LeadingSpace(s)..];
    var j := |t| - TrailingSpace(t);
    assert Strip(s) == t[..j];
    StripLowerAsciiTrimmed(s);
    LowerAsciiTake(t, j);
  }

  lemma StripLowerAsciiTrimmed(s: string)
    ensures var t := s[LeadingSpace(s)..];
            Strip(LowerAscii(s)) == LowerAscii(t)[..|t| - TrailingSpace(t)]
  {
    var i := LeadingSpace(s);
    var t := s[i..];
    LeadingSpaceLowerAscii(s);
    LowerAsciiDrop(s, i);
    TrailingSpaceLowerAscii(t);
  }

  lemma {:induction false} LeadingSpaceLowerAscii(s: string)
    ensures LeadingSpace(LowerAscii(s)) == LeadingSpace(s)
    decreases |s|
  {
    if s != [] {
      var l := LowerAscii(s);
      LowerCharSpace(s[0]);
      if IsSpace(s[0]) {
        LowerAsciiSlice(s, 1, |s|);
        assert l[1..] == LowerAscii(s[1..]);
        LeadingSpaceLowerAscii(s[1..]);
      }
    }
  }

  lemma {:induction false} TrailingSpaceLowerAscii(s: string)
    ensures TrailingSpace(LowerAscii(s)) == TrailingSpace(s)
    decreases |s|
  {
    if s != [] {
      var l := LowerAscii(s);
      LowerCharSpace(s[|s| - 1]);
      if IsSpace(s[|s| - 1]) {
        LowerAsciiSlice(s, 0, |s| - 1);
        assert l[..|l| - 1] == LowerAscii(s[..|s| - 1]);
        TrailingSpaceLowerAscii(s[..|s| - 1]);
      }
    }
  }

  // ---------------------------------------------------------------
  // included_sources / excluded_sources
  // ---------------------------------------------------------------

  /** A list element as the validator sees it: a string or anything else. */
  datatype Item = Str(text: string) | NonString

  predicate IsPort(p: string) {
    1 <= |p| <= 5 && forall k :: 0 <= k < |p| ==> IsDigit(p[k])
  }

  /** `(/.*)?` before the end: nothing, or a `/` and a path with no line break. */
  predicate IsOptionalPath(p: string) {
    p == [] || (p[0] == '/' && '\n' !in p)
  }

  /** Where the host of a URL stops: at the first `:` or `/`. */
  function HostLength(rest: string): (n: nat)
    ensures n <= |rest|
    ensures forall k :: 0 <= k < n ==> rest[k] != ':' && rest[k] != '/'
    ensures n == |rest| || rest[n] == ':' || rest[n] == '/'
  {
    if rest == [] || rest[0] == ':' || rest[0] == '/' then 0 else 1 + HostLength(rest[1..])
  }

  /** What may follow the host: an optional `:` port of one to five digits,
      then an optional path. */
  predicate IsPortAndPath(tail: string) {
    if tail != [] && tail[0] == ':' then
      var afterColon := tail[1..];
      var n := if '/' in afterColon then IndexOf(afterColon, '/') else |afterColon|;
      IsPort(afterColon[..n]) && IsOptionalPath(afterColon[n..])
    else
      IsOptionalPath(tail)
  }

  /** The part of a URL after `://`: a host in the label grammar, then port and path. */
  predicate IsUrlAfterScheme(rest: string) {
    var h := HostLength(rest);
    IsDomainName(rest[..h]) && IsPortAndPath(rest[h..])
  }

  /** `_URL_RE` on a text without a final newline: `https?://` + host +
      optional port + optional path. */
  predicate IsUrl(s: string) {
    (StartsWith(s, "http://") && IsUrlAfterScheme(s[7..]))
    || (StartsWith(s, "https://") && IsUrlAfterScheme(s[8..]))
  }

  /** `_DOMAIN_RE` or `_URL_RE` matches; both end in `$`, which lets one final
      newline through (a stripped text has none). */
  predicate IsDomainOrUrl(s: string) {
    var t := WithoutFinalNewline(s);
    IsDomainName(t) || IsUrl(t)
  }

  /** An element is refused when it is not a string, or when its stripped text
      is non-blank and neither a domain name nor a URL. */
  predicate IsRefused(item: Item) {
    match item
    case NonString => true
    case Str(raw) => Strip(raw) != [] && !IsDomainOrUrl(Strip(raw))
  }

  /** The index of the first refused element, if any. */
  function FirstRefused(items: seq<Item>): Option<nat> {
    FirstWhere(items, IsRefused)
  }

  /** What one element contributes to the cleaned list: its stripped text,
      unless it is blank or not a string. */
  function Cleaned(item: Item): seq<string> {
    if item.Str? && Strip(item.text) != [] then [Strip(item.text)] else []
  }

  /** The cleaned texts of the elements, in order. */
  function Kept(items: seq<Item>): seq<string> {
    Gather(items, Cleaned)
  }

  /** The message raised for the element at index `i`. */
  function ItemError(fieldName: string, i: nat, item: Item): string {
    var where := fieldName + "[" + NatToString(i) + "]";
    if item.NonString? then where + " must be a string"
    else where + " must be a valid domain (e.g., 'example.com') or URL (e.g., 'https://example.com')"
  }

  /** The body of the loop for one element: whether it is refused, and
      otherwise what it adds to the cleaned list. */
  method CheckItem(raw: Item) returns (refused: bool, added: seq<string>)
    ensures refused == IsRefused(raw)
    ensures !refused ==> added == Cleaned(raw)
  {
    if !raw.Str? {
      return true, [];
    }
    var s := Strip(raw.text);
    if s == [] {
      return false, [];
    }
    if !IsDomainOrUrl(s) {
      return true, [];
    }
    return false, [s];
  }

  /** `_validate_domain_or_url_list`: strips every element, drops blank ones,
      and stops at the first element that is not a string or is neither a
      domain nor a URL. An absent list counts as empty. */
  method ValidateDomainOrUrlList(values: Option<seq<Item>>, fieldName: string)
    returns (r: Result<seq<string>, string>)
    ensures var items := values.GetOr([]);
            match FirstRefused(items)
            case None => r == Success(Kept(items))
            case Some(i) => r == Failure(ItemError(fieldName, i, items[i]))
  {
    var items := values.GetOr([]);
    var cleaned: seq<string> := [];
    var i := 0;
    while i < |items|
      invariant 0 <= i <= |items|
      invariant FirstRefused(items[..i]).None?
      invariant cleaned == Kept(items[..i])
    {
      GatherStep(items, Cleaned, i);
      FirstWhereExtend(items, IsRefused, i);
      var refused, added := CheckItem(items[i]);
      if refused {
        return Failure(ItemError(fieldName, i, items[i]));
      }
      cleaned := cleaned + added;
      i := i + 1;
    }
    assert items[..i] == items;
    return Success(cleaned);
  }

  /** Cleaning keeps the order of the list: the kept entries of a
      concatenation are those of each part, one after the other. */
  lemma KeptAppend(xs: seq<Item>, ys: seq<Item>)
    ensures Kept(xs + ys) == Kept(xs) + Kept(ys)
  {
    GatherAppend(xs, ys, Cleaned);
  }

  /** Every kept entry is non-blank, already stripped and, when nothing was
      refused, a domain name or a URL. */
  lemma KeptEntriesValid(items: seq<Item>)
    requires FirstRefused(items).None?
    ensures forall k :: 0 <= k < |Kept(items)| ==>
              Kept(items)[k] != [] && Strip(Kept(items)[k]) == Kept(items)[k]
              && (IsDomainName(Kept(items)[k]) || IsUrl(Kept(items)[k]))
  {
    forall k | 0 <= k < |Kept(items)|
      ensures Kept(items)[k] != [] && Strip(Kept(items)[k]) == Kept(items)[k]
      ensures IsDomainName(Kept(items)[k]) || IsUrl(Kept(items)[k])
    {
      GatherFrom(items, Cleaned, k);
      var i :| 0 <= i < |items| && Kept(items)[k] in Cleaned(items[i]);
      CleanedValid(items[i]);
    }
  }

  /** What an accepted element adds is non-blank, stripped, and a domain name or a URL. */
  lemma CleanedValid(raw: Item)
    requires !IsRefused(raw)
    ensures forall x :: x in Cleaned(raw) ==> x != [] && Strip(x) == x && (IsDomainName(x) || IsUrl(x))
  {
    if raw.Str? {
      StripIdempotent(raw.text);
      StrippedNoFinalNewline(raw.text);
    }
  }

  /** The list that cleaning produces, fed back in as strings. */
  function AsItems(xs: seq<string>): (r: seq<Item>)
    ensures |r| == |xs| && forall k :: 0 <= k < |xs| ==> r[k] == Str(xs[k])
  {
    if xs == [] then [] else [Str(xs[0])] + AsItems(xs[1..])
  }

  /** Cleaning is idempotent: the cleaned list passes again and comes back unchanged. */
  lemma CleaningIdempotent(items: seq<Item>)
    requires FirstRefused(items).None?
    ensures FirstRefused(AsItems(Kept(items))).None?
    ensures Kept(AsItems(Kept(items))) == Kept(items)
  {
    var ks := Kept(items);
    KeptEntriesValid(items);
    KeptOfClean(ks);
    var again := AsItems(ks);
    forall k | 0 <= k < |again| ensures !IsRefused(again[k]) {
      StrippedNoFinalNewline(ks[k]);
      assert again[k] == Str(ks[k]);
    }
    FirstWhereNone(again, IsRefused);
  }

  /** A list of non-blank, stripped strings is kept as it is. */
  lemma {:induction false} KeptOfClean(xs: seq<string>)
    requires forall k :: 0 <= k < |xs| ==> xs[k] != [] && Strip(xs[k]) == xs[k]
    ensures Kept(AsItems(xs)) == xs
    decreases |xs|
  {
    if xs != [] {
      var n := |xs| - 1;
      KeptOfClean(xs[..n]);
      var items := AsItems(xs);
      assert items[..n] == AsItems(xs[..n]);
      assert Cleaned(items[n]) == [xs[n]];
      assert xs == xs[..n] + [xs[n]];
    }
  }

  /** Whitespace-only strings are dropped without error. */
  lemma BlankDropped(items: seq<Item>, blank: string)
    requires IsAllSpace(blank)
    ensures Kept(items + [Str(blank)]) == Kept(items)
    ensures !IsRefused(Str(blank))
  {
    StripSpec(blank);
    assert (items + [Str(blank)])[..|items|] == items;
  }

  /** A `_URL_RE` match is its scheme followed by a host that starts with a
      letter or digit. */
  lemma UrlSplit(t: string) returns (scheme: string, rest: string)
    requires IsUrl(t)
    ensures scheme == "http://" || scheme == "https://"
    ensures t == scheme + rest && rest != [] && !Validation.IsNetlocEnd(rest[0])
  {
    scheme := if StartsWith(t, "https://") then "https://" else "http://";
    rest := t[|scheme|..];
    assert t == scheme + rest;
    UrlAfterSchemePrefix(scheme, rest);
    HostStartsUrl(rest);
  }

  lemma HostStartsUrl(rest: string)
    requires IsUrlAfterScheme(rest)
    ensures rest != [] && !Validation.IsNetlocEnd(rest[0])
  {
    var host := rest[..HostLength(rest)];
    DomainNameChars(host);
    assert rest[0] == host[0];
  }

  /** Everything `_URL_RE` accepts, including with the one final newline its
      `$` lets through, is also accepted by the source validator. */
  lemma UrlIsValidSource(s: string)
    requires IsUrl(WithoutFinalNewline(s))
    ensures Validation.ValidateSource(s)
  {
    var t := WithoutFinalNewline(s);
    var scheme, rest := UrlSplit(t);
    var rest' := s[|scheme|..];
    assert s[..|t|] == t;
    assert s[..|scheme|] == t[..|scheme|] == scheme;
    assert s == scheme + rest';
    assert rest'[0] == s[|scheme|] == t[|scheme|] == rest[0];
    Validation.UrlSourceValid(scheme, rest');
  }

  /** Past its scheme, a URL is judged by what follows `://`. */
  lemma UrlAfterSchemePrefix(scheme: string, rest: string)
    requires scheme == "http://" || scheme == "https://"
    ensures IsUrl(scheme + rest) <==> IsUrlAfterScheme(rest)
  {
    var s := scheme + rest;
    assert StartsWith(s, scheme) && s[|scheme|..] == rest by {
      PrefixOfConcat(scheme, rest);
    }
    if scheme == "https://" {
      assert !StartsWith(s, "http://") by {
        assert s[4] == 's';
      }
    } else {
      assert !StartsWith(s, "https://") by {
        assert s[4] == ':';
      }
    }
  }

  /** The host ends where a text with no `:` and no `/` ends. */
  lemma HostLengthAt(host: string, tail: string)
    requires ':' !in host && '/' !in host
    requires tail == [] || tail[0] == ':' || tail[0] == '/'
    ensures HostLength(host + tail) == |host|
  {
    var rest := host + tail;
    assert forall k | 0 <= k < |host| :: rest[k] == host[k];
    assert tail != [] ==> rest[|host|] == tail[0];
  }

  /** A URL splits at the end of its host, which holds no `:` and no `/`:
      the host must be a domain name and the rest a port and path. */
  lemma UrlAtHostEnd(scheme: string, host: string, tail: string)
    requires scheme == "http://" || scheme == "https://"
    requires ':' !in host && '/' !in host
    requires tail == [] || tail[0] == ':' || tail[0] == '/'
    ensures IsUrl(scheme + host + tail) <==> IsDomainName(host) && IsPortAndPath(tail)
  {
    var rest := host + tail;
    assert scheme + host + tail == scheme + rest;
    UrlAfterSchemePrefix(scheme, rest);
    HostLengthAt(host, tail);
    assert rest[..|host|] == host && rest[|host|..] == tail;
  }

  /** After the host, `:` and a port without `/` run up to the path. */
  lemma PortBeforePath(port: string, path: string)
    requires '/' !in port
    requires path == [] || path[0] == '/'
    ensures IsPortAndPath(":" + port + path) <==> IsPort(port) && IsOptionalPath(path)
  {
    var a := port + path;
    assert (":" + port + path)[1..] == a;
    if path == [] {
      assert a == port;
    } else {
      assert a[|port|] == '/';
      var n := IndexOf(a, '/');
      assert forall k | 0 <= k < |port| :: a[k] == port[k];
      assert n == |port|;
      assert a[..n] == port && a[n..] == path;
    }
  }

  /** `_URL_RE` in pieces: a scheme, a host in the label grammar, an optional
      port of one to five digits and an optional path starting with `/`. */
  lemma UrlShape(scheme: string, host: string, port: string, path: string)
    requires scheme == "http://" || scheme == "https://"
    requires ':' !in host && '/' !in host && '/' !in port
    requires path == [] || path[0] == '/'
    ensures IsUrl(scheme + host + (":" + port + path)) <==>
              IsDomainName(host) && IsPort(port) && IsOptionalPath(path)
    ensures IsUrl(scheme + host + path) <==> IsDomainName(host) && IsOptionalPath(path)
  {
    UrlWithPort(scheme, host, port, path);
    UrlAtHostEnd(scheme, host, path);
  }

  lemma UrlWithPort(scheme: string, host: string, port: string, path: string)
    requires scheme == "http://" || scheme == "https://"
    requires ':' !in host && '/' !in host && '/' !in port
    requires path == [] || path[0] == '/'
    ensures IsUrl(scheme + host + (":" + port + path)) <==>
              IsDomainName(host) && IsPort(port) && IsOptionalPath(path)
  {
    UrlAtHostEnd(scheme, host, ":" + port + path);
    PortBeforePath(port, path);
  }

  /** A domain name in the label grammar is listed as it is, whatever its length. */
  lemma DomainNameListed(s: string)
    requires IsDomainName(s)
    ensures !IsRefused(Str(s))
    ensures Kept([Str(s)]) == [s]
  {
    DomainNameChars(s);
    StripNoop(s);
    GatherStep([Str(s)], Cleaned, 0);
    assert [Str(s)][..1] == [Str(s)];
  }

  /** A single label such as a bare host name passes the list validator but
      not the source validator, which wants a dot, a slash or a scheme. */
  lemma BareHostListedButNotSource(s: string)
    requires IsLabel(s)
    ensures !IsRefused(Str(s))
    ensures !Validation.ValidateSource(s)
  {
    assert '.' !in s && '/' !in s;
    SingleLabel(s);
    DomainNameListed(s);
    Validation.BareWordInvalid(s);
  }

  // ---------------------------------------------------------------
  // start_date / end_date
  // ---------------------------------------------------------------

  /** A calendar date; Python orders dates by year, then month, then day. */
  datatype Date = Date(year: int, month: int, day: int)

  predicate After(a: Date, b: Date) {
    a.year > b.year
    || (a.year == b.year && (a.month > b.month || (a.month == b.month && a.day > b.day)))
  }

  /** `After` is a strict total order on dates. */
  lemma AfterIsStrictTotalOrder(a: Date, b: Date, c: Date)
    ensures !After(a, a)
    ensures After(a, b) ==> !After(b, a)
    ensures After(a, b) && After(b, c) ==> After(a, c)
    ensures a == b || After(a, b) || After(b, a)
  {
  }

  const DateOrderError := "start_date must be before end_date"

  /** `_validate_date_order`: fails when both dates are given and the start
      is after the end; otherwise keeps the end date. */
  function ValidateDateOrder(start: Option<Date>, end: Option<Date>): (r: Result<Option<Date>, string>)
    ensures r.Failure? <==> start.Some? && end.Some? && After(start.value, end.value)
    ensures r.Failure? ==> r.error == DateOrderError
    ensures r.Success? ==> r.value == end
  {
    if start.Some? && end.Some? && After(start.value, end.value) then Failure(DateOrderError)
    else Success(end)
  }

  /** When both dates pass, the start is the end or comes before it. */
  lemma AcceptedDatesOrdered(start: Date, end: Date)
    requires ValidateDateOrder(Some(start), Some(end)).Success?
    ensures start == end || After(end, start)
  {
    AfterIsStrictTotalOrder(start, end, end);
  }
}
