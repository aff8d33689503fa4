/**
 * The three Kotlin standard-library string operations the core relies on:
 * `CharSequence.isBlank`, `Iterable<String>.joinToString(separator)` and
 * `String.replace(oldValue, newValue)`. Strings are sequences of Unicode
 * characters.
 */
module Text {

  /**
   * Kotlin's `Char.isWhitespace` on the JVM: `Character.isWhitespace` or
   * `Character.isSpaceChar`, i.e. the control characters U+0009..U+000D and
   * U+001C..U+001F plus every space, line and paragraph separator.
   */
  function IsWhitespace(c: char): (b: bool)
    ensures c == ' ' || c == '\t' || c == '\n' || c == '\r' ==> b
    ensures '0' <= c <= '9' || 'A' <= c <= 'Z' || 'a' <= c <= 'z' ==> !b
  {
    || ('\t' <= c <= '\r')
    || ('\U{1C}' <= c <= '\U{1F}')
    || c == ' ' || c == '\U{A0}' || c == '\U{1680}'
    || ('\U{2000}' <= c <= '\U{200A}')
    || c == '\U{2028}' || c == '\U{2029}'
    || c == '\U{202F}' || c == '\U{205F}' || c == '\U{3000}'
  }

  /** `isBlank`: the string is empty or consists of whitespace only. */
  function IsBlank(s: string): (b: bool)
    ensures b <==> forall i :: 0 <= i < |s| ==> IsWhitespace(s[i])
  {
    if s == [] then true
    else IsWhitespace(s[0]) && IsBlank(s[1..])
  }

  // ---------------------------------------------------------------------------
  // joinToString
  // ---------------------------------------------------------------------------

  /** `xs.joinToString(sep)`: the elements in order with `sep` between neighbours. */
  function Join(xs: seq<string>, sep: string): (r: string)
    ensures xs == [] ==> r == ""
    ensures xs != [] ==> xs[0] <= r
  {
    if xs == [] then ""
    else if |xs| == 1 then xs[0]
    else xs[0] + sep + Join(xs[1..], sep)
  }

  /** Total length of the elements, separators not counted. */
  function TotalLength(xs: seq<string>): nat
  {
    if xs == [] then 0 else |xs[0]| + TotalLength(xs[1..])
  }

  /** Joining two non-empty lists is joining each and putting one separator between. */
  lemma {:induction false} JoinConcat(xs: seq<string>, ys: seq<string>, sep: string)
    requires xs != [] && ys != []
    ensures Join(xs + ys, sep) == Join(xs, sep) + sep + Join(ys, sep)
  {
    if |xs| == 1 {
      assert (xs + ys)[1..] == ys;
    } else {
      assert (xs + ys)[1..] == xs[1..] + ys;
      JoinConcat(xs[1..], ys, sep);
    }
  }

  /** A join of n >= 1 elements holds n - 1 separators and nothing else besides the elements. */
  lemma {:induction false} JoinLength(xs: seq<string>, sep: string)
    requires xs != []
    ensures |Join(xs, sep)| == TotalLength(xs) + (|xs| - 1) * |sep|
  {
    if |xs| > 1 {
      JoinLength(xs[1..], sep);
    }
  }

  /** Joining one element gives the element itself, whatever the separator. */
  lemma JoinSingle(x: string, sep: string)
    ensures Join([x], sep) == x
  {
  }

  // ---------------------------------------------------------------------------
  // replace
  // ---------------------------------------------------------------------------

  /** `pat` occurs in `s` at position `i`. */
  predicate OccursAt(s: string, pat: string, i: int)
  {
    0 <= i && i + |pat| <= |s| && s[i..i + |pat|] == pat
  }

  /** `pat` occurs somewhere in `s`. */
  predicate Occurs(s: string, pat: string)
  {
    exists i {:trigger OccursAt(s, pat, i)} :: 0 <= i <= |s| && OccursAt(s, pat, i)
  }

  /**
   * `s.replace(from, to)`: scanning left to right, every non-overlapping
   * occurrence of `from` is replaced by `to`; the text produced by a
   * replacement is not scanned again.
   */
  function ReplaceAll(s: string, from: string, to: string): (r: string)
    requires from != ""
    ensures |s| < |from| ==> r == s
    ensures from <= s ==> to <= r
    ensures |to| >= |from| ==> |r| >= |s|
    ensures to == from ==> r == s
    decreases |s|
  {
    if |s| < |from| then s
    else if s[..|from|] == from then to + ReplaceAll(s[|from|..], from, to)
    else [s[0]] + ReplaceAll(s[1..], from, to)
  }

  /** A string in which `from` does not occur is left unchanged. */
  lemma {:induction false} ReplaceAllWithoutMatch(s: string, from: string, to: string)
    requires from != ""
    requires !Occurs(s, from)
    ensures ReplaceAll(s, from, to) == s
    decreases |s|
  {
    if |s| >= |from| {
      assert !OccursAt(s, from, 0);
      forall i | 0 <= i <= |s[1..]| ensures !OccursAt(s[1..], from, i) {
        assert !OccursAt(s, from, i + 1);
        if i + |from| <= |s[1..]| {
          assert s[1..][i..i + |from|] == s[i + 1..i + 1 + |from|];
        }
      }
      ReplaceAllWithoutMatch(s[1..], from, to);
    }
  }

  /** The scheme rewritten by the repository, and what replaces it. */
  const Insecure: string := "http://"
  const Secure: string := "https://"

  /** The rewrite applied to cover URLs: every "http://" becomes "https://". */
  function SecureScheme(s: string): (r: string)
    ensures |r| >= |s|
    ensures Insecure <= s ==> Secure <= r
    ensures |s| < |Insecure| ==> r == s
  {
    ReplaceAll(s, Insecure, Secure)
  }

  /**
   * Where the first n characters of the rewrite contain no 'h', the rewrite
   * did not touch them: they are the first n characters of the input.
   */
  lemma {:induction false} RewritePrefixWithoutH(t: string, n: nat)
    ensures n <= |SecureScheme(t)| && (forall k :: 0 <= k < n ==> SecureScheme(t)[k] != 'h')
            ==> n <= |t| && t[..n] == SecureScheme(t)[..n]
    decreases |t|
  {
    var r := SecureScheme(t);
    if n > 0 && |t| >= |Insecure| {
      if t[..|Insecure|] == Insecure {
        assert r[0] == 'h';
      } else if n <= |r| && forall k :: 0 <= k < n ==> r[k] != 'h' {
        var rest := SecureScheme(t[1..]);
        assert r == [t[0]] + rest;
        assert forall k :: 0 <= k < n - 1 ==> rest[k] == r[k + 1];
        RewritePrefixWithoutH(t[1..], n - 1);
        assert t[..n] == [t[0]] + t[1..][..n - 1];
        assert r[..n] == [t[0]] + rest[..n - 1];
      }
    }
  }

  /** An occurrence that starts inside `rest` of `p + rest` is an occurrence in `rest`. */
  lemma NoInsecureInSuffix(p: string, rest: string, i: int)
    requires !Occurs(rest, Insecure)
    requires |p| <= i <= |p + rest|
    ensures !OccursAt(p + rest, Insecure, i)
  {
    if i + |Insecure| <= |p + rest| {
      assert (p + rest)[i..i + |Insecure|] == rest[i - |p|..i - |p| + |Insecure|];
      assert !OccursAt(rest, Insecure, i - |p|);
    }
  }

  /** Putting "https://" in front of a string without "http://" creates none. */
  lemma SecurePrefixAddsNoInsecure(rest: string)
    requires !Occurs(rest, Insecure)
    ensures !Occurs(Secure + rest, Insecure)
  {
    var r := Secure + rest;
    forall i | 0 <= i <= |r| ensures !OccursAt(r, Insecure, i) {
      if i >= |Secure| {
        NoInsecureInSuffix(Secure, rest, i);
      } else if i + |Insecure| <= |r| {
        if i == 0 {
          // "https:/" is not "http://"
          assert r[i..i + |Insecure|][4] == 's';
        } else {
          // the only 'h' of "https://" is its first character
          assert r[i..i + |Insecure|][0] == Secure[i];
        }
      }
    }
  }

  /**
   * A character copied in front of the rewrite of the rest creates no
   * "http://": were the result to start with one, its "ttp://" tail holds no
   * 'h' and so was copied from the input, which then started with "http://".
   */
  lemma CopiedCharAddsNoInsecure(s: string)
    requires |s| >= |Insecure| && s[..|Insecure|] != Insecure
    requires !Occurs(SecureScheme(s[1..]), Insecure)
    ensures !Occurs([s[0]] + SecureScheme(s[1..]), Insecure)
  {
    var rest := SecureScheme(s[1..]);
    var r := [s[0]] + rest;
    forall i | 0 <= i <= |r| ensures !OccursAt(r, Insecure, i) {
      if i == 0 {
        RewritePrefixWithoutH(s[1..], 6);
        if |r| >= |Insecure| {
          assert r[..|Insecure|] == [r[0]] + rest[..6];
          forall k | 0 <= k < 6
            ensures rest[..6] == Insecure[1..] ==> rest[k] != 'h'
          {
            assert rest[..6][k] == rest[k];
          }
          assert s[..|Insecure|] == [s[0]] + s[1..][..6];
        }
      } else {
        NoInsecureInSuffix([s[0]], rest, i);
      }
    }
  }

  /** After the rewrite no "http://" is left anywhere, including across replacement boundaries. */
  lemma {:induction false} SecureSchemeRemovesInsecure(s: string)
    ensures !Occurs(SecureScheme(s), Insecure)
    decreases |s|
  {
    if |s| < |Insecure| {
      assert SecureScheme(s) == s;
      assert forall i :: 0 <= i <= |s| ==> !OccursAt(s, Insecure, i);
    } else if s[..|Insecure|] == Insecure {
      SecureSchemeRemovesInsecure(s[|Insecure|..]);
      SecurePrefixAddsNoInsecure(SecureScheme(s[|Insecure|..]));
    } else {
      SecureSchemeRemovesInsecure(s[1..]);
      CopiedCharAddsNoInsecure(s);
    }
  }

  /** Applying the rewrite twice gives the same result as applying it once. */
  lemma SecureSchemeIdempotent(s: string)
    ensures SecureScheme(SecureScheme(s)) == SecureScheme(s)
  {
    SecureSchemeRemovesInsecure(s);
    ReplaceAllWithoutMatch(SecureScheme(s), Insecure, Secure);
  }

  /** A leading "http://" becomes "https://" and the rest is rewritten on its own. */
  lemma SecureSchemeOfInsecurePrefix(t: string)
    ensures SecureScheme(Insecure + t) == Secure + SecureScheme(t)
  {
    assert (Insecure + t)[..|Insecure|] == Insecure;
    assert (Insecure + t)[|Insecure|..] == t;
  }
}
