/** The identity tokens `generateUid` builds from two random draws:
    `pp_<first draw>_<second draw>_uid`, the draws written in decimal. */
module Uid {
  import opened Values

  predicate IsDigits(s: string) {
    forall i :: 0 <= i < |s| ==> '0' <= s[i] <= '9'
  }

  function Digit(d: nat): (c: char)
    requires d < 10
    ensures '0' <= c <= '9' && c as int - '0' as int == d
  {
    ('0' as int + d) as char
  }

  /** The decimal text of a natural number, as a template literal writes it. */
  function Dec(n: nat): (s: string)
    ensures |s| >= 1 && IsDigits(s)
    decreases n
  {
    if n < 10 then [Digit(n)] else Dec(n / 10) + [Digit(n % 10)]
  }

  /** The number a string of decimal digits denotes. */
  function DecValue(s: string): nat
    requires IsDigits(s)
  {
    if s == [] then 0 else DecValue(s[..|s| - 1]) * 10 + (s[|s| - 1] as int - '0' as int)
  }

  lemma {:induction false} DecRoundTrip(n: nat)
    ensures DecValue(Dec(n)) == n
    decreases n
  {
    if n >= 10 {
      var s := Dec(n);
      assert s[..|s| - 1] == Dec(n / 10);
      DecRoundTrip(n / 10);
    }
  }

  /** The token the loop body of `generateUid` forms from one pair of draws. */
  function Token(a: nat, b: nat): (t: string)
    ensures |t| > 8 && t[..3] == "pp_" && t[|t| - 4..] == "_uid"
  {
    "pp_" + Dec(a) + "_" + Dec(b) + "_uid"
  }

  /** Index of the first occurrence of c, or |s| when there is none. */
  function IndexOf(s: string, c: char): (i: nat)
    ensures i <= |s|
    ensures i < |s| ==> s[i] == c
    ensures forall j :: 0 <= j < i ==> s[j] != c
  {
    if s == [] then 0 else if s[0] == c then 0 else 1 + IndexOf(s[1..], c)
  }

  /** Reads the two draws back out of a token. */
  function ParseToken(t: string): Option<(nat, nat)> {
    if |t| < 7 || t[..3] != "pp_" || t[|t| - 4..] != "_uid" then None
    else
      var mid := t[3..|t| - 4];
      var i := IndexOf(mid, '_');
      if i == |mid| then None
      else
        var x, y := mid[..i], mid[i + 1..];
        if x != [] && y != [] && IsDigits(x) && IsDigits(y)
        then Some((DecValue(x), DecValue(y)))
        else None
  }

  /** A token determines the draws it was made from. */
  lemma {:induction false} TokenRoundTrip(a: nat, b: nat)
    ensures ParseToken(Token(a, b)) == Some((a, b))
  {
    var t := Token(a, b);
    var mid := t[3..|t| - 4];
    assert mid == Dec(a) + "_" + Dec(b);
    var i := IndexOf(mid, '_');
    assert forall j :: 0 <= j < |Dec(a)| ==> mid[j] == Dec(a)[j] != '_';
    assert mid[|Dec(a)|] == '_';
    assert i == |Dec(a)|;
    assert mid[..i] == Dec(a);
    assert mid[i + 1..] == Dec(b);
    DecRoundTrip(a);
    DecRoundTrip(b);
  }

  /** Different pairs of draws give different tokens. */
  lemma {:induction false} TokenInjective(a: nat, b: nat, c: nat, d: nat)
    requires (a, b) != (c, d)
    ensures Token(a, b) != Token(c, d)
  {
    TokenRoundTrip(a, b);
    TokenRoundTrip(c, d);
  }

  /** The do-while of `generateUid` stops at the first pair of draws whose
      token is not yet taken. */
  function FirstFresh(draws: seq<(nat, nat)>, taken: set<string>): (k: nat)
    requires exists i :: 0 <= i < |draws| && Token(draws[i].0, draws[i].1) !in taken
    ensures k < |draws| && Token(draws[k].0, draws[k].1) !in taken
    ensures forall j :: 0 <= j < k ==> Token(draws[j].0, draws[j].1) in taken
  {
    if Token(draws[0].0, draws[0].1) !in taken then 0
    else
      assert exists i :: 0 <= i < |draws[1..]| && Token(draws[1..][i].0, draws[1..][i].1) !in taken by {
        var i :| 0 <= i < |draws| && Token(draws[i].0, draws[i].1) !in taken;
        assert draws[1..][i - 1] == draws[i];
      }
      1 + FirstFresh(draws[1..], taken)
  }
}
