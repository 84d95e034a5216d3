/**
 * Normalisation of a queried domain name before it is looked up in the
 * record table: the handler removes every trailing `.` from the name it was
 * asked about (basic-auth-dns/main.go:123, `strings.TrimRight(q.Name, ".")`).
 */
module Names {

  /** True when `s` has a `.` as its last character. */
  predicate EndsWithDot(s: string) {
    |s| > 0 && s[|s| - 1] == '.'
  }

  /** True when every character of `s` is a `.`. */
  predicate AllDots(s: string) {
    forall i :: 0 <= i < |s| ==> s[i] == '.'
  }

  /**
   * `strings.TrimRight(s, ".")`: the longest prefix of `s` that does not end
   * in `.`. Every trailing dot is removed, not only the last one.
   */
  function TrimTrailingDots(s: string): (r: string)
    ensures r <= s
    ensures !EndsWithDot(r)
    ensures AllDots(s[|r|..])
    decreases |s|
  {
    if EndsWithDot(s) then TrimTrailingDots(s[..|s| - 1]) else s
  }

  /**
   * The three properties in the contract of `TrimTrailingDots` determine its
   * result: any prefix of `s` without a trailing dot, followed in `s` by dots
   * only, is that result.
   */
  lemma TrimUnique(s: string, r: string)
    requires r <= s
    requires !EndsWithDot(r)
    requires AllDots(s[|r|..])
    ensures r == TrimTrailingDots(s)
  {
  }

  /** Normalising an already normalised name leaves it unchanged. */
  lemma TrimIdempotent(s: string)
    ensures TrimTrailingDots(TrimTrailingDots(s)) == TrimTrailingDots(s)
  {
  }

  /** Appending any run of dots to a name does not change its normal form. */
  lemma TrimIgnoresAppendedDots(s: string, dots: string)
    requires AllDots(dots)
    ensures TrimTrailingDots(s + dots) == TrimTrailingDots(s)
  {
    var r := TrimTrailingDots(s);
    var u := s + dots;
    assert r <= u by {
      assert u[..|s|] == s;
    }
    assert u[|r|..] == s[|r|..] + dots;
    TrimUnique(u, r);
  }

  /** A name with one trailing dot, with two, and with none normalise alike. */
  lemma TrimExamples()
    ensures TrimTrailingDots("foo.test.") == "foo.test"
    ensures TrimTrailingDots("foo.test..") == "foo.test"
    ensures TrimTrailingDots("foo.test") == "foo.test"
    ensures TrimTrailingDots(".") == ""
  {
    TrimUnique("foo.test.", "foo.test");
    TrimUnique("foo.test..", "foo.test");
    TrimUnique(".", "");
  }
}
