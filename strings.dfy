/**
 * `NovaGraph::split` (backend/src/Graph.cpp): the tokens that repeated
 * `std::getline(stream, token, delimiter)` calls extract from a string.
 *
 * getline reads characters up to the delimiter (which it consumes but does
 * not store) or up to the end of the stream, and fails only when the stream
 * is already exhausted before it reads anything.  So an empty string gives no
 * token, an inner empty field gives an empty token, and a trailing delimiter
 * does not give a trailing empty token.
 */
module Strings {

  /** Position of the first `d` in `s`, or `|s|` when there is none. */
  function IndexOf(s: string, d: char): (i: nat)
    ensures i <= |s|
    ensures i < |s| ==> s[i] == d
    ensures forall k :: 0 <= k < i ==> s[k] != d
  {
    if s == [] then 0
    else if s[0] == d then 0
    else 1 + IndexOf(s[1..], d)
  }

  /** The getline tokens of `s`: the specification of `Split`. */
  function Tokens(s: string, d: char): (r: seq<string>)
    ensures r == [] <==> s == []
    ensures forall t :: t in r ==> d !in t
    decreases |s|
  {
    if s == [] then []
    else
      var i := IndexOf(s, d);
      if i == |s| then [s]
      else [s[..i]] + Tokens(s[i + 1..], d)
  }

  /** The tokens joined with `d` between consecutive ones. */
  function Join(ts: seq<string>, d: char): string
  {
    if ts == [] then ""
    else if |ts| == 1 then ts[0]
    else ts[0] + [d] + Join(ts[1..], d)
  }

  predicate EndsWith(s: string, d: char)
  {
    |s| > 0 && s[|s| - 1] == d
  }

  /**
   * One `std::getline` call on the stream positioned at `pos`: the
   * characters up to the next delimiter or the end, and where reading stops.
   */
  method ReadToken(s: string, d: char, pos: nat) returns (token: string, stop: nat)
    requires pos <= |s|
    ensures pos <= stop <= |s|
    ensures token == s[pos..stop] && d !in token
    ensures stop < |s| ==> s[stop] == d
  {
    token := "";
    stop := pos;
    while stop < |s| && s[stop] != d
      invariant pos <= stop <= |s|
      invariant token == s[pos..stop]
      invariant d !in token
    {
      token := token + [s[stop]];
      stop := stop + 1;
    }
  }

  /**
   * The getline loop of `NovaGraph::split`: each round extracts one token
   * and skips the delimiter that ends it.
   */
  method Split(s: string, d: char) returns (tokens: seq<string>)
    ensures tokens == Tokens(s, d)
  {
    tokens := [];
    var pos := 0;
    while pos < |s|
      invariant 0 <= pos <= |s|
      invariant tokens + Tokens(s[pos..], d) == Tokens(s, d)
      decreases |s| - pos
    {
      var token, stop := ReadToken(s, d, pos);
      TokensStep(s, d, pos, stop);
      tokens := tokens + [token];
      pos := if stop < |s| then stop + 1 else stop;
    }
  }

  /** `IndexOf` is characterised by its postconditions. */
  lemma {:induction false} IndexOfIs(s: string, d: char, j: nat)
    requires j <= |s|
    requires d !in s[..j]
    requires j < |s| ==> s[j] == d
    ensures IndexOf(s, d) == j
    decreases |s|
  {
    if s != [] && s[0] != d {
      assert s[0] in s[..j];
      assert s[1..][..j - 1] == s[..j][1..];
      IndexOfIs(s[1..], d, j - 1);
    }
  }

  /** One getline round, read on the suffix `s[pos..]`. */
  lemma TokensStep(s: string, d: char, pos: nat, stop: nat)
    requires pos < |s| && pos <= stop <= |s|
    requires d !in s[pos..stop]
    requires stop < |s| ==> s[stop] == d
    ensures stop < |s| ==> Tokens(s[pos..], d) == [s[pos..stop]] + Tokens(s[stop + 1..], d)
    ensures stop == |s| ==> Tokens(s[pos..], d) == [s[pos..stop]]
  {
    var t := s[pos..];
    assert t[..stop - pos] == s[pos..stop];
    IndexOfIs(t, d, stop - pos);
    assert t != [];
    if stop < |s| {
      assert t[stop - pos] == d;
      assert t[stop - pos + 1..] == s[stop + 1..];
      assert Tokens(t, d) == [t[..stop - pos]] + Tokens(t[stop - pos + 1..], d);
    } else {
      assert t[..stop - pos] == t;
    }
  }

  /**
   * Joining the tokens gives back the string, except for the trailing
   * delimiter that getline drops.
   */
  lemma {:induction false} JoinTokens(s: string, d: char)
    requires s != []
    ensures EndsWith(s, d) ==> Join(Tokens(s, d), d) + [d] == s
    ensures !EndsWith(s, d) ==> Join(Tokens(s, d), d) == s
    decreases |s|
  {
    var i := IndexOf(s, d);
    if i == |s| {
      TokensNoDelimiter(s, d);
      assert s[|s| - 1] in s;
    } else {
      var a, rest := s[..i], s[i + 1..];
      SplitAt(s, d, i);
      TokensCons(a, d, rest);
      if rest != [] {
        JoinTokens(rest, d);
        JoinCons(a, Tokens(rest, d), d);
      }
    }
  }

  lemma JoinCons(a: string, ts: seq<string>, d: char)
    requires ts != []
    ensures Join([a] + ts, d) == a + [d] + Join(ts, d)
  {
    assert ([a] + ts)[1..] == ts;
  }

  lemma {:induction false} TrailingDelimiter(s: string, d: char)
    ensures s != [] && !EndsWith(s, d) ==> Tokens(s + [d], d) == Tokens(s, d)
    ensures s == [] || EndsWith(s, d) ==> Tokens(s + [d], d) == Tokens(s, d) + [""]
    decreases |s|
  {
    if s == [] {
      TokensCons("", d, "");
      assert s + [d] == "" + [d] + "";
    } else {
      var j := IndexOf(s, d);
      if j == |s| {
        TrailingAfterPlain(s, d);
      } else {
        var a, rest := s[..j], s[j + 1..];
        SplitAt(s, d, j);
        TokensCons(a, d, rest);
        TokensCons(a, d, rest + [d]);
        TrailingDelimiter(rest, d);
      }
    }
  }

  /** A delimiter after a non-empty token without delimiters ends that token. */
  lemma TrailingAfterPlain(s: string, d: char)
    requires s != [] && d !in s
    ensures !EndsWith(s, d)
    ensures Tokens(s + [d], d) == Tokens(s, d)
  {
    assert s[|s| - 1] in s;
    TokensCons(s, d, "");
    assert s + [d] == s + [d] + "";
    TokensNoDelimiter(s, d);
  }

  /** Cutting `s` at a delimiter at index `j`. */
  lemma SplitAt(s: string, d: char, j: nat)
    requires j < |s| && s[j] == d
    ensures s == s[..j] + [d] + s[j + 1..]
    ensures s + [d] == s[..j] + [d] + (s[j + 1..] + [d])
    ensures s[j + 1..] != [] ==> EndsWith(s[j + 1..], d) == EndsWith(s, d)
    ensures s[j + 1..] == [] ==> EndsWith(s, d)
  {
    assert s == s[..j] + [d] + s[j + 1..];
  }

  lemma TokensNoDelimiter(s: string, d: char)
    requires d !in s
    ensures s != [] ==> Tokens(s, d) == [s]
  {
    if s != [] {
      assert s[..|s|] == s;
      IndexOfIs(s, d, |s|);
    }
  }

  /** Reading `a d rest` yields `a` and then the tokens of `rest`. */
  lemma TokensCons(a: string, d: char, rest: string)
    requires d !in a
    ensures Tokens(a + [d] + rest, d) == [a] + Tokens(rest, d)
  {
    var s := a + [d] + rest;
    assert s[..|a|] == a;
    IndexOfIs(s, d, |a|);
    assert s[|a| + 1..] == rest;
  }

  /**
   * Splitting a join gives back the tokens, provided no token holds `d` and
   * the last one is not empty (getline would drop it).
   */
  lemma {:induction false} TokensOfJoin(ts: seq<string>, d: char)
    requires forall t :: t in ts ==> d !in t
    requires ts != [] ==> ts[|ts| - 1] != ""
    ensures Tokens(Join(ts, d), d) == ts
    decreases |ts|
  {
    if ts == [] {
    } else if |ts| == 1 {
      TokensNoDelimiter(ts[0], d);
    } else {
      assert ts[1..][|ts[1..]| - 1] == ts[|ts| - 1];
      assert forall t :: t in ts[1..] ==> t in ts;
      TokensOfJoin(ts[1..], d);
      TokensCons(ts[0], d, Join(ts[1..], d));
      assert ts == [ts[0]] + ts[1..];
    }
  }

  lemma PrefixSnoc<T>(s: seq<T>, n: nat)
    requires n < |s|
    ensures s[..n + 1] == s[..n] + [s[n]] && s[..n + 1][..n] == s[..n]
  {
  }

  lemma PrefixAll<T>(s: seq<T>)
    ensures s[..|s|] == s
  {
  }
}
