/**
 * The host-name grammar shared by the source validator and the answer-request
 * validator: `^[a-zA-Z0-9]([a-zA-Z0-9-]{0,61}[a-zA-Z0-9])?(\.<same>)*$`,
 * i.e. dot-separated labels of 1 to 63 ASCII letters, digits and hyphens that
 * begin and end with a letter or digit.
 */
module Hostnames {
  import opened Text

  predicate IsAlnum(c: char) {
    'a' <= c <= 'z' || 'A' <= c <= 'Z' || '0' <= c <= '9'
  }

  /** A character the grammar lets into a host name at all. */
  predicate IsHostChar(c: char) {
    IsAlnum(c) || c == '-' || c == '.'
  }

  /** One label: `[a-zA-Z0-9]([a-zA-Z0-9-]{0,61}[a-zA-Z0-9])?`. */
  predicate IsLabel(l: string) {
    1 <= |l| <= 63 && IsAlnum(l[0]) && IsAlnum(l[|l| - 1])
    && forall k :: 0 < k < |l| - 1 ==> IsAlnum(l[k]) || l[k] == '-'
  }

  /** The whole string is a non-empty dot-separated run of labels. */
  predicate IsDomainName(s: string) {
    var labels := Split(s, '.');
    forall k :: 0 <= k < |labels| ==> IsLabel(labels[k])
  }

  /** A dot-free string is a domain name exactly when it is one label. */
  lemma SingleLabel(s: string)
    requires '.' !in s
    ensures IsDomainName(s) <==> IsLabel(s)
  {
    var labels := Split(s, '.');
    assert labels == [s];
    if IsLabel(s) {
      assert forall k :: 0 <= k < |labels| ==> labels[k] == s;
    }
    if IsDomainName(s) {
      assert IsLabel(labels[0]);
    }
  }

  /** Two domain names joined by a dot form a domain name, and only those do. */
  lemma DomainNameAround(a: string, b: string)
    ensures IsDomainName(a + "." + b) <==> IsDomainName(a) && IsDomainName(b)
  {
    SplitAround(a, '.', b);
    var xs, ys := Split(a, '.'), Split(b, '.');
    assert Split(a + "." + b, '.') == xs + ys;
    if IsDomainName(a) && IsDomainName(b) {
      forall k | 0 <= k < |xs + ys| ensures IsLabel((xs + ys)[k]) {
        if k >= |xs| { assert (xs + ys)[k] == ys[k - |xs|]; }
      }
    }
    if IsDomainName(a + "." + b) {
      forall k | 0 <= k < |ys| ensures IsLabel(ys[k]) {
        assert (xs + ys)[|xs| + k] == ys[k];
      }
      forall k | 0 <= k < |xs| ensures IsLabel(xs[k]) {
        assert (xs + ys)[k] == xs[k];
      }
    }
  }

  /** A domain name is non-empty and uses only letters, digits, hyphens and dots. */
  lemma {:induction false} DomainNameChars(s: string)
    requires IsDomainName(s)
    ensures s != []
    ensures forall k :: 0 <= k < |s| ==> IsHostChar(s[k])
    decreases |s|
  {
    if '.' in s {
      var i := IndexOf(s, '.');
      assert s == s[..i] + "." + s[i + 1..];
      DomainNameAround(s[..i], s[i + 1..]);
      DomainNameChars(s[..i]);
      DomainNameChars(s[i + 1..]);
      forall k | 0 <= k < |s| ensures IsHostChar(s[k]) {
        if k < i { assert s[k] == s[..i][k]; }
        else if k > i { assert s[k] == s[i + 1..][k - i - 1]; }
      }
    } else {
      SingleLabel(s);
    }
  }

  /** `DomainNameChars` for any string, as an implication. */
  lemma DomainNameOnlyHostChars(s: string)
    ensures IsDomainName(s) ==> s != [] && forall k :: 0 <= k < |s| ==> IsHostChar(s[k])
  {
    if IsDomainName(s) {
      DomainNameChars(s);
    }
  }

  /** A leading dot, a trailing dot or an empty label between two dots is rejected. */
  lemma EmptyLabelRejected(a: string, b: string)
    ensures !IsDomainName("." + b)
    ensures !IsDomainName(a + ".")
    ensures !IsDomainName(a + ".." + b)
  {
    DomainNameAround("", b);
    assert "" + "." + b == "." + b;
    SingleLabel("");
    DomainNameAround(a, "");
    assert a + "." + "" == a + ".";
    DomainNameAround(a, "." + b);
    assert a + "." + ("." + b) == a + ".." + b;
  }

  /** A label longer than 63 characters is rejected wherever it stands: alone,
      first, last or between two other parts. */
  lemma LongLabelRejected(a: string, l: string, b: string)
    requires '.' !in l && |l| > 63
    ensures !IsDomainName(l)
    ensures !IsDomainName(a + "." + l)
    ensures !IsDomainName(l + "." + b)
    ensures !IsDomainName(a + "." + l + "." + b)
  {
    SingleLabel(l);
    DomainNameAround(a, l);
    DomainNameAround(l, b);
    DomainNameAround(a, l + "." + b);
    assert a + "." + (l + "." + b) == a + "." + l + "." + b;
  }
}
