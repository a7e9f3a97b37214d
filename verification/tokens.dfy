/**
 * Tokenizing the encoded mask: Python's `str.split()` with no argument,
 * followed by the conversion of every token to an integer.
 */
module Tokens {
  import opened Errors

  /** The characters `str.split()` treats as separators (those for which `str.isspace()` holds). */
  predicate IsSpace(c: char) {
    var k := c as int;
    (9 <= k <= 13) || (28 <= k <= 32) || k == 0x85 || k == 0xA0 || k == 0x1680
    || (0x2000 <= k <= 0x200A) || k == 0x2028 || k == 0x2029 || k == 0x202F
    || k == 0x205F || k == 0x3000
  }

  /** A token: a non-empty string without separators. */
  predicate IsToken(t: string) {
    |t| > 0 && forall i :: 0 <= i < |t| ==> !IsSpace(t[i])
  }

  /** The length of the longest prefix of `s` that holds no separator. */
  function TokenEnd(s: string): (n: nat)
    ensures n <= |s|
    ensures forall i :: 0 <= i < n ==> !IsSpace(s[i])
    ensures n < |s| ==> IsSpace(s[n])
  {
    if |s| == 0 || IsSpace(s[0]) then 0 else 1 + TokenEnd(s[1..])
  }

  /** `s.split()`: the maximal runs of non-separator characters, in order. */
  function Split(s: string): (tokens: seq<string>)
    ensures forall k :: 0 <= k < |tokens| ==> IsToken(tokens[k])
    decreases |s|
  {
    if |s| == 0 then []
    else if IsSpace(s[0]) then Split(s[1..])
    else
      var n := TokenEnd(s);
      [s[..n]] + Split(s[n..])
  }

  /** The characters of `s` that are not separators, in order. */
  function NonSpace(s: string): string {
    if |s| == 0 then [] else (if IsSpace(s[0]) then [] else [s[0]]) + NonSpace(s[1..])
  }

  function Concat(tokens: seq<string>): string {
    if |tokens| == 0 then [] else tokens[0] + Concat(tokens[1..])
  }

  lemma {:induction false} NonSpaceAppend(a: string, b: string)
    ensures NonSpace(a + b) == NonSpace(a) + NonSpace(b)
    decreases |a|
  {
    if |a| == 0 {
      assert a + b == b;
    } else {
      assert (a + b)[0] == a[0];
      assert (a + b)[1..] == a[1..] + b;
      NonSpaceAppend(a[1..], b);
    }
  }

  lemma {:induction false} NonSpaceOfToken(t: string)
    requires forall i :: 0 <= i < |t| ==> !IsSpace(t[i])
    ensures NonSpace(t) == t
    decreases |t|
  {
    if |t| > 0 {
      NonSpaceOfToken(t[1..]);
    }
  }

  /** Splitting loses no character except separators, and keeps the order of the rest. */
  lemma {:induction false} SplitKeepsNonSpace(s: string)
    ensures Concat(Split(s)) == NonSpace(s)
    decreases |s|
  {
    if |s| > 0 {
      if IsSpace(s[0]) {
        SplitKeepsNonSpace(s[1..]);
      } else {
        var n := TokenEnd(s);
        assert s == s[..n] + s[n..];
        NonSpaceAppend(s[..n], s[n..]);
        NonSpaceOfToken(s[..n]);
        SplitKeepsNonSpace(s[n..]);
        assert ([s[..n]] + Split(s[n..]))[1..] == Split(s[n..]);
      }
    }
  }

  /** A string made of separators only (in particular the empty string) has no tokens. */
  lemma {:induction false} SplitOfBlank(s: string)
    requires forall i :: 0 <= i < |s| ==> IsSpace(s[i])
    ensures Split(s) == []
    decreases |s|
  {
    if |s| > 0 {
      SplitOfBlank(s[1..]);
    }
  }

  /** A token followed by a separator (or by nothing) is split off as the first token. */
  lemma SplitLeadingToken(t: string, rest: string)
    requires IsToken(t)
    requires rest == [] || IsSpace(rest[0])
    ensures Split(t + rest) == [t] + Split(rest)
  {
    var s := t + rest;
    var n := TokenEnd(s);
    assert !(n < |t|) by {
      assert forall i :: 0 <= i < |t| ==> s[i] == t[i];
    }
    assert !(n > |t|) by {
      assert |t| < |s| ==> s[|t|] == rest[0];
    }
    assert s[..n] == t && s[n..] == rest;
  }

  /** A string without separators is a single token. */
  lemma SplitOfToken(t: string)
    requires IsToken(t)
    ensures Split(t) == [t]
  {
    SplitLeadingToken(t, []);
    assert t + [] == t;
  }

  /** A token of `a` cannot run on past the end of `a` into a separator. */
  lemma TokenEndBeforeSpace(a: string, rest: string)
    requires |rest| > 0 && IsSpace(rest[0])
    ensures TokenEnd(a + rest) == TokenEnd(a)
  {
    var s, n, m := a + rest, TokenEnd(a + rest), TokenEnd(a);
    assert forall i :: 0 <= i < |a| ==> s[i] == a[i];
    assert s[|a|] == rest[0];
    assert !(n < m);
    assert !(n > m);
  }

  /** A separator always ends a token: splitting around it splits each side on its own. */
  lemma {:induction false} SplitAtSpace(a: string, c: char, b: string)
    requires IsSpace(c)
    ensures Split(a + [c] + b) == Split(a) + Split(b)
    decreases |a|
  {
    var s := a + [c] + b;
    if |a| == 0 {
      assert s[1..] == b;
    } else if IsSpace(a[0]) {
      assert s[1..] == a[1..] + [c] + b;
      SplitAtSpace(a[1..], c, b);
    } else {
      var m := TokenEnd(a);
      TokenEndBeforeSpace(a, [c] + b);
      assert s == a + ([c] + b);
      assert s[..m] == a[..m];
      assert s[m..] == a[m..] + [c] + b;
      SplitAtSpace(a[m..], c, b);
    }
  }

  /** The tokens separated by single blanks: the layout of an encoded mask. */
  function Join(tokens: seq<string>): string {
    if |tokens| == 0 then []
    else if |tokens| == 1 then tokens[0]
    else tokens[0] + " " + Join(tokens[1..])
  }

  /** Splitting undoes joining. */
  lemma {:induction false} SplitJoin(tokens: seq<string>)
    requires forall k :: 0 <= k < |tokens| ==> IsToken(tokens[k])
    ensures Split(Join(tokens)) == tokens
    decreases |tokens|
  {
    if |tokens| == 1 {
      SplitLeadingToken(tokens[0], []);
      assert tokens[0] + [] == tokens[0];
    } else if |tokens| > 1 {
      var rest := Join(tokens[1..]);
      assert Join(tokens) == tokens[0] + (" " + rest);
      SplitLeadingToken(tokens[0], " " + rest);
      assert (" " + rest)[1..] == rest;
      SplitJoin(tokens[1..]);
    }
  }

  predicate IsDigit(c: char) {
    '0' <= c <= '9'
  }

  predicate AllDigits(t: string) {
    forall i :: 0 <= i < |t| ==> IsDigit(t[i])
  }

  /** The value of a string of decimal digits, most significant first; leading zeros are allowed. */
  function DigitsValue(t: string): nat
    requires AllDigits(t)
  {
    if |t| == 0 then 0
    else 10 * DigitsValue(t[..|t| - 1]) + (t[|t| - 1] as int - '0' as int)
  }

  /** Converting one token to an integer: decimal digits only. */
  function ParseNat(t: string): (r: Option<nat>)
    ensures r.Some? <==> |t| > 0 && AllDigits(t)
  {
    if |t| > 0 && AllDigits(t) then Some(DigitsValue(t)) else None
  }

  /** The decimal numeral of `n`, without leading zeros. */
  function NatToString(n: nat): (t: string)
    ensures |t| > 0 && AllDigits(t)
    ensures |t| > 1 ==> t[0] != '0'
  {
    if n < 10 then [('0' as int + n) as char]
    else NatToString(n / 10) + [('0' as int + n % 10) as char]
  }

  /** Parsing undoes printing. */
  lemma {:induction false} ParseNatToString(n: nat)
    ensures ParseNat(NatToString(n)) == Some(n)
  {
    var t := NatToString(n);
    if n < 10 {
      assert t[..0] == [];
      assert DigitsValue(t) == n;
    } else {
      assert t[..|t| - 1] == NatToString(n / 10);
      ParseNatToString(n / 10);
      assert DigitsValue(t) == 10 * (n / 10) + n % 10;
    }
  }

  /**
   * Converting every token; the first token that is not a numeral is
   * reported by its position.
   */
  function ParseTokens(tokens: seq<string>): (r: Result<seq<nat>, DecodeError>)
    ensures r.Success? ==> |r.value| == |tokens|
    ensures r.Success? ==> forall k :: 0 <= k < |tokens| ==> ParseNat(tokens[k]) == Some(r.value[k])
    ensures r.Failure? ==> r.error.NotANumber? && r.error.token < |tokens|
    ensures r.Failure? ==> ParseNat(tokens[r.error.token]).None?
    ensures r.Failure? ==> forall k :: 0 <= k < r.error.token ==> ParseNat(tokens[k]).Some?
  {
    if |tokens| == 0 then Success([])
    else
      var last := |tokens| - 1;
      match ParseTokens(tokens[..last])
      case Failure(e) => Failure(e)
      case Success(ns) =>
        match ParseNat(tokens[last])
        case None => Failure(NotANumber(last))
        case Some(n) => Success(ns + [n])
  }

  /** The whole first step of decoding: split on whitespace, convert each token. */
  function Tokenize(s: string): Result<seq<nat>, DecodeError> {
    ParseTokens(Split(s))
  }

  /** The numbers printed in decimal, separated by single blanks. */
  function Format(ns: seq<nat>): string {
    Join(seq(|ns|, i requires 0 <= i < |ns| => NatToString(ns[i])))
  }

  /** Tokenizing blank-separated numerals gives their values. */
  lemma TokenizeJoin(tokens: seq<string>, ns: seq<nat>)
    requires |tokens| == |ns|
    requires forall k :: 0 <= k < |tokens| ==> IsToken(tokens[k]) && ParseNat(tokens[k]) == Some(ns[k])
    ensures Tokenize(Join(tokens)) == Success(ns)
  {
    SplitJoin(tokens);
    var r := ParseTokens(tokens);
    assert r.Success?;
    assert r.value == ns;
  }

  /** Tokenizing undoes formatting. */
  lemma TokenizeFormat(ns: seq<nat>)
    ensures Tokenize(Format(ns)) == Success(ns)
  {
    var tokens := seq(|ns|, i requires 0 <= i < |ns| => NatToString(ns[i]));
    forall k | 0 <= k < |ns| ensures IsToken(tokens[k]) && ParseNat(tokens[k]) == Some(ns[k]) {
      ParseNatToString(ns[k]);
    }
    TokenizeJoin(tokens, ns);
  }
}
