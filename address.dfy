/** The address reported by the address service (getIp). */
module Address {

  /** The address is the service's response body with every line feed
      deleted (a global replace of "\n" by nothing); every other character
      is kept, in order. */
  function StripNewlines(body: string): (addr: string)
    ensures '\n' !in addr
    ensures |addr| <= |body|
    ensures forall c :: c != '\n' ==> multiset(addr)[c] == multiset(body)[c]
  {
    if body == [] then []
    else
      assert body == [body[0]] + body[1..];
      (if body[0] == '\n' then [] else [body[0]]) + StripNewlines(body[1..])
  }

  /** Removing line feeds works piecewise: it never joins or reorders the
      parts of its input. */
  lemma {:induction false} StripNewlinesConcat(a: string, b: string)
    ensures StripNewlines(a + b) == StripNewlines(a) + StripNewlines(b)
  {
    if a != [] {
      assert (a + b)[0] == a[0];
      assert (a + b)[1..] == a[1..] + b;
      StripNewlinesConcat(a[1..], b);
    } else {
      assert a + b == b;
    }
  }

  /** A body changes exactly when it contains a line feed. */
  lemma {:induction false} StripNewlinesFixedIffClean(s: string)
    ensures StripNewlines(s) == s <==> '\n' !in s
  {
    if s != [] && '\n' !in s {
      assert '\n' !in s[1..];
      StripNewlinesFixedIffClean(s[1..]);
      assert s == [s[0]] + s[1..];
    }
  }

  /** Normalising an address twice is the same as normalising it once. */
  lemma StripNewlinesIdempotent(s: string)
    ensures StripNewlines(StripNewlines(s)) == StripNewlines(s)
  {
    StripNewlinesFixedIffClean(StripNewlines(s));
  }
}
