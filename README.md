# Valyu source and answer-request validators in Dafny

This project models the two validation components of the Valyu Python SDK.
Both decide whether caller-supplied strings may be sent to the server.

- **The source-reference validator** (`valyu/validation.py`).
  - `validate_source` classifies one string in a fixed order:
    1. empty is rejected;
    2. `http://` or `https://` is checked as a URL;
    3. exactly one `/` is checked as a `provider/dataset` id;
    4. a `.` is checked as a domain;
    5. anything else is rejected.
  - `validate_sources` collects the rejected entries of a list, in order.
  - `format_validation_error` builds the message that lists the rejected
    entries and the accepted formats with their examples.
- **The field validators of an answer request** (`valyu/types/answer.py`).
  - `_non_empty_when_present` strips the system instructions and rejects
    blank ones.
  - `_validate_country_code` normalises a country code against the
    supported set.
  - `_validate_domain_or_url_list` cleans the included/excluded source
    lists using its own domain and URL regexes.
  - `_validate_date_order` checks that the start date is not after the
    end date.

Files:

- `wrappers.dfy`: `Option` and `Result`.
- `sequences.dfy`: generic facts about scanning a sequence. These are the
  first element that fails a test, and the in-order concatenation of each
  element's contribution.
- `text.dfy`: the Python `str` operations the validators use.
  - `isspace`/`strip`, over the full Unicode whitespace set;
  - `count`, `find`, `startswith`, `split`/`join`;
  - `upper` for the characters whose upper case is ASCII;
  - ASCII `lower`, and decimal formatting of an index.
- `hostnames.dfy`: the label grammar that both files use for host names
  (`IsDomainName`, the regex of valyu/validation.py:21, which
  `_DOMAIN_RE` and the host part of `_URL_RE` repeat).
  - A name is a dot-separated sequence of labels.
  - A label has 1–63 characters, with a letter or digit at both ends and
    letters, digits or hyphens inside.
- `validation.dfy`: `valyu/validation.py`.
  - `validate_sources` and `format_validation_error` are methods, as they
    are loops and string building in the source.
  - The classifiers are predicates:
    - `ValidateSource` is `validate_source` (lines 58-87);
    - `IsValidDomain` is `is_valid_domain` (lines 10-22);
    - `IsValidUrlWithPath` is `is_valid_url_with_path` (lines 25-40);
    - `IsValidDatasetName` is `is_valid_dataset_name` (lines 43-55);
    - `InvalidSources` is the collecting loop of `validate_sources`
      (lines 103-106).
- `answer.dfy`: the validators of `valyu/types/answer.py`.
  - `_validate_domain_or_url_list` is a method with a loop.
  - The other validators are functions that return a `Result`.
  - `IsUrl` is `_URL_RE` (lines 69-71) on text without a final newline.
    `IsDomainOrUrl` is the test `_DOMAIN_RE.match(s) or _URL_RE.match(s)`
    (line 156). It drops the one final newline that `$` lets through
    before applying `IsDomainName` or `IsUrl`.

Decisions the model makes explicit:

- **The URL check of `validation.py`.**
  - `urlparse` is read as follows. The scheme is the text before the
    first `:`, lower-cased.
  - When `//` follows, the netloc is the longest run after it that
    contains no `/`, `?` or `#`.
  - A reference is a valid URL when the scheme is `http` or `https` and
    the netloc is non-empty. So `https:///path` is rejected.
- **Regex anchors.** Python's `$` also matches just before one final
  newline, and the model keeps that behaviour.
  - `validate_source("example.com\n")` and `validate_source("a/b\n")` are
    accepted. `DomainWithNewlineAccepted` and `DatasetWithNewlineAccepted`
    state this.
  - The 253-character bound counts that newline.
  - In `answer.py` the text is stripped before matching, so it never ends
    in a newline.
- **No extra source categories.** The code has no "domain with path"
  category, no `localhost`/IP rule, and three example categories. The
  model follows the code.
  - `example.com/blog` has one slash, so it goes to the dataset rule. It
    fails there because of the `.`, as `DatasetSourceValid` states.
  - `github.com/user/repo` has two slashes, so it goes to the domain rule.
    It fails there, as `MultiSlashInvalid` states.
- **Non-string list elements.** Elements of a list given to
  `_validate_domain_or_url_list` are `Str(text)` or `NonString`, so the
  non-string error path is modelled. The pydantic field type `List[str]`
  normally rejects such elements earlier; the validator body is modelled
  as written.
- **Dates.** They are `(year, month, day)` triples ordered
  lexicographically, as Python's `date` is. Both dates are optional; the
  one-line body treats a missing date as "no check".

## Model

| member | source | states |
|---|---|---|
| Hostnames.SingleLabel | valyu/validation.py:21 | a dot-free string is a domain name iff it is one label of 1–63 characters with letters or digits at both ends and hyphens only inside |
| Hostnames.DomainNameAround | valyu/validation.py:21 | `a.b` is a domain name iff both `a` and `b` are (labels compose around a dot) |
| Hostnames.DomainNameChars | valyu/validation.py:21 | a domain name is non-empty and uses only letters, digits, `-` and `.` |
| Hostnames.EmptyLabelRejected | valyu/validation.py:21 | a leading dot, a trailing dot or two dots in a row make a string no domain name |
| Hostnames.LongLabelRejected | valyu/validation.py:21 | a label longer than 63 characters makes a string no domain name: alone, first, last or between two other parts |
| Validation.EmptySourceInvalid | valyu/validation.py:71-72 | the empty string is not a valid source |
| Validation.UrlWithPathParts | valyu/validation.py:35-40 | for a scheme name without a colon, `name://rest` is a valid URL iff the lower-cased name is `http` or `https` and the netloc of `rest` is non-empty |
| Validation.UrlSourceValid | valyu/validation.py:75-76 | `http://rest` or `https://rest` is valid iff `rest` is non-empty and does not start with `/`, `?` or `#` |
| Validation.DatasetSourceValid | valyu/validation.py:79-80 | a scheme-less `a/b` with no other slash is valid iff `a` and `b` (up to one final newline) are non-empty runs of `[A-Za-z0-9_-]` |
| Validation.DatasetWithNewlineAccepted | valyu/validation.py:54-55 | a dataset id followed by one newline is still accepted |
| Validation.DomainSourceValid | valyu/validation.py:83-84 | a scheme-less dotted reference whose slash count is not one is valid iff it is a domain name (up to one final newline) of at most 253 characters |
| Validation.DomainNameAccepted | valyu/validation.py:21-22 | every dotted domain name of at most 253 characters is a valid source |
| Validation.DomainWithNewlineAccepted | valyu/validation.py:21-22 | a dotted domain name of fewer than 253 characters followed by one newline is still accepted |
| Validation.MultiSlashInvalid | valyu/validation.py:79-84 | a scheme-less reference with two or more slashes is never valid |
| Validation.BareWordInvalid | valyu/validation.py:86-87 | a reference with neither a dot nor a slash is never valid |
| Validation.DomainWithPathExampleInvalid | valyu/validation.py:79-80 | `example.com/blog` is rejected: its one slash makes it a dataset id, and the dot is not a dataset character |
| Validation.BareWordExampleInvalid | valyu/validation.py:86-87 | `not-a-url` is rejected |
| Validation.DomainExampleValid | valyu/validation.py:21-22 | `example.com` is accepted |
| Validation.DatasetIdAccepted | valyu/validation.py:79-80 | every `a/b` whose two sides are non-empty runs of `[A-Za-z0-9_-]` is accepted |
| Validation.DatasetExampleValid | valyu/validation.py:79-80 | `valyu/valyu-arxiv` is accepted |
| Validation.DottedNonDomainInvalid | valyu/validation.py:83-84 | a dotted, slash-free reference without a scheme or final newline that is not a domain name is rejected |
| Validation.DoubleDotExampleInvalid | valyu/validation.py:21 | `invalid..domain` is rejected, because of its empty label |
| Validation.EmptyAuthorityExampleInvalid | valyu/validation.py:35-40 | `https:///path` is rejected, because its netloc is empty |
| Validation.InvalidSourcesMembers | valyu/validation.py:104-106 | the invalid list holds exactly the inputs that fail `validate_source` |
| Validation.InvalidSourcesAppend | valyu/validation.py:103-106 | the invalid list of a concatenation is that of the first part followed by that of the second, so input order is kept |
| Validation.ValidateSources | valyu/validation.py:100-108 | the returned list is the in-order invalid entries; the flag holds iff every entry is valid iff that list is empty (so `[]` gives `(True, [])`) |
| Validation.SourceFormatExamples | valyu/validation.py:118-135 | the example table has exactly the keys `domain`, `url_with_path` and `dataset`, each with at least three examples |
| Validation.FormatValidationError | valyu/validation.py:148-156 | the message starts with `Invalid source format(s): ` and the rejected entries joined by `, ` and a blank line; it contains every rejected entry and every example of the three categories |
| Text.StripSpec | valyu/types/answer.py:130 | `strip()` returns an infix with only whitespace around it; it is empty iff the input is all whitespace, and otherwise neither starts nor ends with whitespace |
| Answer.SupportedCodeShape | valyu/types/answer.py:25-63 | every supported code is `ALL` or two upper-case ASCII letters |
| Answer.NonEmptyWhenPresent | valyu/types/answer.py:127-133 | absent stays absent; present text fails iff it is all whitespace; otherwise the result is the stripped text, which has no whitespace at either end |
| Answer.NonEmptyWhenPresentIdempotent | valyu/types/answer.py:130-133 | validating accepted instructions again returns them unchanged |
| Answer.ValidateCountryCode | valyu/types/answer.py:137-145 | absent stays absent; a failure carries the fixed message; an accepted code is in the supported set |
| Answer.CountryCodeAccepted | valyu/types/answer.py:140-145 | a present code is accepted iff its stripped, upper-cased form is supported, and that form is what is returned |
| Answer.CountryCodeIdempotent | valyu/types/answer.py:140-145 | validating an accepted code again returns it unchanged |
| Answer.CountryCodeCaseInsensitive | valyu/types/answer.py:140 | a code and its ASCII lower-case form get the same result |
| Answer.CountryCodeNormalised | valyu/types/answer.py:140-145 | every supported code, written in lower case with any whitespace around it, is accepted and returned as the code itself |
| Answer.UrlIsValidSource | valyu/types/answer.py:69-71 | every string `_URL_RE` accepts, including with the one final newline its `$` lets through, is also accepted by `validate_source` |
| Answer.UrlAtHostEnd | valyu/types/answer.py:69-71 | after `http://` or `https://`, a host without `:` or `/` followed by text that is empty or starts with `:` or `/` matches iff the host is a domain name and the rest is a valid port-and-path |
| Answer.PortBeforePath | valyu/types/answer.py:69-71 | `:` + port + path, with no `/` in the port and a path that is empty or starts with `/`, is a valid port-and-path iff the port is 1–5 digits and the path has no line break |
| Answer.UrlShape | valyu/types/answer.py:69-71 | `scheme + host + ":" + port + path` matches `_URL_RE` iff the host is a domain name, the port is 1–5 digits and the path is empty or a `/` with no line break; without the port, iff the host and path are valid |
| Answer.DomainNameListed | valyu/types/answer.py:66-68 | a domain name of any length passes the list cleaner and is kept as it is |
| Answer.BareHostListedButNotSource | valyu/types/answer.py:66-68 | a single label such as a bare host name passes the list cleaner but not `validate_source` |
| Text.NatToStringInjective | valyu/types/answer.py:152-158 | different indices print as different decimal strings, so an error message names exactly one index |
| Answer.CheckItem | valyu/types/answer.py:151-160 | one element is refused iff it is not a string, or its stripped text is non-blank and neither a domain nor a URL; otherwise what it adds is its cleaned contribution |
| Answer.ValidateDomainOrUrlList | valyu/types/answer.py:148-161 | with no refused element (an absent list counts as empty) the result is the stripped non-blank entries in order; otherwise it is the error for the first refused index, naming the field and the index |
| Answer.KeptAppend | valyu/types/answer.py:150-160 | the cleaned list of a concatenation is the cleaned first part followed by the cleaned second part (order is kept) |
| Answer.BlankDropped | valyu/types/answer.py:153-155 | a whitespace-only entry is not refused and adds nothing |
| Answer.KeptEntriesValid | valyu/types/answer.py:153-160 | every kept entry is non-blank, already stripped, and a domain name or a URL |
| Answer.CleaningIdempotent | valyu/types/answer.py:148-161 | cleaning the cleaned list refuses nothing and returns it unchanged |
| Answer.AfterIsStrictTotalOrder | valyu/types/answer.py:180 | date comparison is irreflexive, asymmetric, transitive and total |
| Answer.ValidateDateOrder | valyu/types/answer.py:175-182 | fails iff both dates are present and the start is after the end; otherwise returns the end date unchanged |
| Answer.AcceptedDatesOrdered | valyu/types/answer.py:180-182 | when both dates pass, the start equals or precedes the end |

## Left out

- Non-string input to `validate_source` (valyu/validation.py:71). It returns False; the model is over strings only.
- `urlparse` corner cases.
  - The leading C0-control and space stripping.
  - The removal of tab, CR and LF.
  - The `ValueError` on an unbalanced `[` in an IPv6 host, which the `try` turns into False.
  - The `ValueError` that newer `urlsplit` raises for a balanced bracketed host that is not an IPv6 or IPvFuture literal. For example, `https://[x]/` is False in the source but valid under `IsValidUrlWithPath`.
  - The NFKC netloc check.
  - The model keeps only the scheme and netloc rule stated above.
- `str.upper` is modelled exactly for two kinds of character: those whose upper-case form is ASCII, and those Python leaves unchanged.
  - The first kind is the lower-case ASCII letters, dotless `ı`, long `ſ`, `ß` and the Latin ligatures U+FB00–U+FB06.
  - The model keeps every other character as it is. Python maps such a character to itself, or to a form that still holds a non-ASCII character.
  - So membership of the result in the supported set is decided exactly. Only the upper-cased text of a rejected code can differ from Python's.
- `data_max_price` (`gt=0` on a float) and the pydantic field constraints on the other request fields: floating point and library glue.
- The pydantic decorators, including the `_validate_included_sources`/`_validate_excluded_sources` wrappers (valyu/types/answer.py:163-171). They pass a fixed field name to `_validate_domain_or_url_list`, which is modelled with the field name as a parameter.
- The rest of the SDK: HTTP clients, the data loaders, the provider adapters and the data-only type declarations. Their files are not part of this model.
