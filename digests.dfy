/**
 * The digest format the updater accepts, and the check it applies to the
 * text a digest service sends back (docker-updater.py, `get_latest_digest`).
 */
module Digests {
  import opened Wrappers

  /** One character of the class `[0-9a-f]`. */
  predicate IsLowerHex(c: char) {
    '0' <= c <= '9' || 'a' <= c <= 'f'
  }

  /** `sha256:` followed by exactly 64 lower-case hexadecimal digits. */
  predicate IsDigest(d: string) {
    |d| == 71 && d[..7] == "sha256:" && forall k :: 7 <= k < 71 ==> IsLowerHex(d[k])
  }

  /**
   * `re.match(r"^sha256:[0-9a-f]{64}$", d)`. Without MULTILINE, Python's `$`
   * also matches just before a single newline that ends the string.
   */
  predicate MatchesDigestPattern(d: string) {
    IsDigest(d) || (|d| == 72 && d[71] == '\n' && IsDigest(d[..71]))
  }

  /** Python's `str.isspace()` for one character. */
  predicate IsSpace(c: char) {
    var n := c as int;
    (9 <= n <= 13) || (28 <= n <= 32) || n == 0x85 || n == 0xA0 || n == 0x1680
    || (0x2000 <= n <= 0x200A) || n == 0x2028 || n == 0x2029 || n == 0x202F
    || n == 0x205F || n == 0x3000
  }

  predicate AllSpace(s: string) {
    forall k :: 0 <= k < |s| ==> IsSpace(s[k])
  }

  /** `s.lstrip()`: the longest suffix of `s` that does not start with white space. */
  function TrimLeft(s: string): (r: string)
    ensures |r| <= |s| && r == s[|s| - |r|..]
    ensures AllSpace(s[..|s| - |r|])
    ensures r != [] ==> !IsSpace(r[0])
  {
    if s == [] then s
    else if IsSpace(s[0]) then TrimLeft(s[1..])
    else s
  }

  /** `s.rstrip()`: the longest prefix of `s` that does not end with white space. */
  function TrimRight(s: string): (r: string)
    ensures |r| <= |s| && r == s[..|r|]
    ensures AllSpace(s[|r|..])
    ensures r != [] ==> !IsSpace(r[|r| - 1])
  {
    if s == [] then s
    else if IsSpace(s[|s| - 1]) then TrimRight(s[..|s| - 1])
    else s
  }

  /** `s.strip()`: `s` without its leading and trailing white space. */
  function Strip(s: string): (r: string)
    ensures |r| <= |s|
    ensures r != [] ==> !IsSpace(r[0]) && !IsSpace(r[|r| - 1])
    ensures r == [] ==> AllSpace(s)
  {
    var left := TrimLeft(s);
    var r := TrimRight(left);
    assert r == [] ==> s == s[..|s| - |left|] + left[|r|..];
    r
  }

  /**
   * The digest check of `get_latest_digest`: the reply text, stripped, is
   * returned when it matches the digest pattern, and None otherwise.
   */
  function AcceptDigest(text: string): (r: Option<string>)
    ensures r.Some? <==> IsDigest(Strip(text))
    ensures r.Some? ==> r.value == Strip(text) && IsDigest(r.value)
  {
    var digest := Strip(text);
    if MatchesDigestPattern(digest) then Some(digest) else None
  }

  lemma {:induction false} TrimLeftOfPadded(lead: string, rest: string)
    requires AllSpace(lead)
    requires rest != [] ==> !IsSpace(rest[0])
    ensures TrimLeft(lead + rest) == rest
  {
    if lead != [] {
      assert (lead + rest)[1..] == lead[1..] + rest;
      TrimLeftOfPadded(lead[1..], rest);
    } else {
      assert lead + rest == rest;
    }
  }

  lemma {:induction false} TrimRightOfPadded(rest: string, trail: string)
    requires AllSpace(trail)
    requires rest != [] ==> !IsSpace(rest[|rest| - 1])
    ensures TrimRight(rest + trail) == rest
  {
    if trail != [] {
      assert (rest + trail)[..|rest + trail| - 1] == rest + trail[..|trail| - 1];
      TrimRightOfPadded(rest, trail[..|trail| - 1]);
    } else {
      assert rest + trail == rest;
    }
  }

  /** Stripping removes exactly the white space around a text that has none at its ends. */
  lemma StripOfPadded(lead: string, text: string, trail: string)
    requires AllSpace(lead) && AllSpace(trail)
    requires text != [] ==> !IsSpace(text[0]) && !IsSpace(text[|text| - 1])
    ensures Strip(lead + text + trail) == text
  {
    assert lead + text + trail == lead + (text + trail);
    if text == [] {
      assert text + trail == trail;
      assert AllSpace(lead + trail);
      TrimLeftOfPadded(lead + trail, []);
      assert lead + trail + [] == lead + trail;
    } else {
      TrimLeftOfPadded(lead, text + trail);
      TrimRightOfPadded(text, trail);
    }
  }

  /**
   * A reply consisting of a well-formed digest surrounded by any white space
   * is accepted, and the digest it yields is exactly that digest.
   */
  lemma AcceptPaddedDigest(lead: string, digest: string, trail: string)
    requires AllSpace(lead) && AllSpace(trail)
    requires IsDigest(digest)
    ensures AcceptDigest(lead + digest + trail) == Some(digest)
  {
    assert !IsSpace(digest[0]) by { assert digest[..7][0] == 's'; }
    assert !IsSpace(digest[70]) by { assert IsLowerHex(digest[70]); }
    StripOfPadded(lead, digest, trail);
  }
}
