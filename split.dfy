/** split(s, seperator): the texture-list tokenizer. Every character of the separator string
    is a separator; the tokens are the maximal runs of non-separator characters, in order,
    and runs of separators produce no empty tokens. */
module Tokenizer {

  /** Length of the longest prefix of s that holds no separator character. */
  function WordLength(s: string, sep: string): (r: nat)
    ensures r <= |s|
    ensures forall p :: 0 <= p < r ==> s[p] !in sep
    ensures r < |s| ==> s[r] in sep
  {
    if s == [] || s[0] in sep then 0 else 1 + WordLength(s[1..], sep)
  }

  /** The tokens of s: separators are skipped, and each maximal separator-free run is one
      token. */
  function Tokens(s: string, sep: string): seq<string>
    decreases |s|
  {
    if s == [] then []
    else if s[0] in sep then Tokens(s[1..], sep)
    else
      var k := WordLength(s, sep);
      [s[..k]] + Tokens(s[k..], sep)
  }

  /** s with every separator character removed. */
  function RemoveSeparators(s: string, sep: string): string
  {
    if s == [] then []
    else (if s[0] in sep then [] else [s[0]]) + RemoveSeparators(s[1..], sep)
  }

  /** The tokens written one after the other. */
  function Concat(tokens: seq<string>): string
  {
    if tokens == [] then [] else tokens[0] + Concat(tokens[1..])
  }

  /** A stretch of m non-separators followed by a separator or the end is the word. */
  lemma {:induction false} WordLengthIs(s: string, sep: string, m: nat)
    requires m <= |s| && (forall p :: 0 <= p < m ==> s[p] !in sep) && (m < |s| ==> s[m] in sep)
    ensures WordLength(s, sep) == m
  {
  }

  /** The first word is not changed by what follows a separator. */
  lemma WordLengthAppend(a: string, t: string, sep: string)
    requires t != [] && t[0] in sep
    ensures WordLength(a + t, sep) == WordLength(a, sep)
  {
    var m := WordLength(a, sep);
    var s := a + t;
    assert forall p :: 0 <= p < m ==> s[p] == a[p];
    if m < |a| {
      assert s[m] == a[m];
    } else {
      assert s[m] == t[0];
    }
    WordLengthIs(s, sep, m);
  }

  /** split never emits an empty token. */
  lemma {:induction false} TokensNonEmpty(s: string, sep: string)
    ensures forall i :: 0 <= i < |Tokens(s, sep)| ==> |Tokens(s, sep)[i]| > 0
    decreases |s|
  {
    if s != [] {
      if s[0] in sep {
        TokensNonEmpty(s[1..], sep);
      } else {
        TokensNonEmpty(s[WordLength(s, sep)..], sep);
      }
    }
  }

  /** No token holds a separator character. */
  lemma {:induction false} TokensNoSeparator(s: string, sep: string)
    ensures forall i, p :: 0 <= i < |Tokens(s, sep)| && 0 <= p < |Tokens(s, sep)[i]| ==>
      Tokens(s, sep)[i][p] !in sep
    decreases |s|
  {
    if s != [] {
      if s[0] in sep {
        TokensNoSeparator(s[1..], sep);
      } else {
        var k := WordLength(s, sep);
        TokensNoSeparator(s[k..], sep);
        var r := Tokens(s, sep);
        assert r == [s[..k]] + Tokens(s[k..], sep);
        forall i, p | 0 <= i < |r| && 0 <= p < |r[i]|
          ensures r[i][p] !in sep
        {
          if i > 0 {
            assert r[i] == Tokens(s[k..], sep)[i - 1];
          }
        }
      }
    }
  }

  lemma {:induction false} RemoveSeparatorsAppend(a: string, b: string, sep: string)
    ensures RemoveSeparators(a + b, sep) == RemoveSeparators(a, sep) + RemoveSeparators(b, sep)
  {
    if a == [] {
      assert a + b == b;
    } else {
      assert (a + b)[0] == a[0] && (a + b)[1..] == a[1..] + b;
      RemoveSeparatorsAppend(a[1..], b, sep);
    }
  }

  /** A separator-free string loses nothing. */
  lemma {:induction false} RemoveSeparatorsOfWord(w: string, sep: string)
    requires forall p :: 0 <= p < |w| ==> w[p] !in sep
    ensures RemoveSeparators(w, sep) == w
  {
    if w != [] {
      RemoveSeparatorsOfWord(w[1..], sep);
      assert w == [w[0]] + w[1..];
    }
  }

  /** The tokens, concatenated, are s with every separator removed: nothing but separators is
      dropped and the tokens keep the order of s. */
  lemma {:induction false} TokensConcat(s: string, sep: string)
    ensures Concat(Tokens(s, sep)) == RemoveSeparators(s, sep)
    decreases |s|
  {
    if s != [] {
      if s[0] in sep {
        TokensConcat(s[1..], sep);
      } else {
        var k := WordLength(s, sep);
        TokensConcat(s[k..], sep);
        var r := Tokens(s, sep);
        assert r[0] == s[..k] && r[1..] == Tokens(s[k..], sep);
        assert s == s[..k] + s[k..];
        RemoveSeparatorsAppend(s[..k], s[k..], sep);
        RemoveSeparatorsOfWord(s[..k], sep);
      }
    }
  }

  /** A non-empty separator-free string is its own single token; in particular, with an empty
      separator string every non-empty s yields exactly [s]. */
  lemma TokensOfWord(s: string, sep: string)
    requires s != [] && forall p :: 0 <= p < |s| ==> s[p] !in sep
    ensures Tokens(s, sep) == [s]
  {
    WordLengthIs(s, sep, |s|);
    assert s[..|s|] == s;
    assert s[|s|..] == [];
  }

  /** An empty string has no tokens; with an empty separator string a non-empty s is one
      token, s itself. */
  lemma TokensEdgeCases(s: string, sep: string)
    ensures Tokens([], sep) == []
    ensures s != [] ==> Tokens(s, []) == [s]
  {
    if s != [] {
      TokensOfWord(s, []);
    }
  }

  /** A separator cuts s in two: the tokens are those of the left part followed by those of
      the right part, however many separators surround the cut. */
  lemma {:induction false} TokensSplitAtSeparator(a: string, c: char, b: string, sep: string)
    requires c in sep
    ensures Tokens(a + [c] + b, sep) == Tokens(a, sep) + Tokens(b, sep)
    decreases |a|
  {
    var s := a + [c] + b;
    if a == [] {
      assert s[0] == c && s[1..] == b;
    } else if a[0] in sep {
      assert s[0] == a[0] && s[1..] == a[1..] + [c] + b;
      TokensSplitAtSeparator(a[1..], c, b, sep);
    } else {
      assert s == a + ([c] + b);
      WordLengthAppend(a, [c] + b, sep);
      var k := WordLength(a, sep);
      assert s[0] == a[0];
      assert s[..k] == a[..k];
      assert s[k..] == a[k..] + [c] + b;
      TokensSplitAtSeparator(a[k..], c, b, sep);
    }
  }

  /** The inner for loops of split: compare c with each separator character in turn and stop
      at the first match. */
  method IsSeparator(c: char, sep: string) returns (hit: bool)
    ensures hit <==> c in sep
  {
    hit := false;
    for x := 0 to |sep|
      invariant !hit && forall y :: 0 <= y < x ==> c != sep[y]
    {
      if c == sep[x] {
        hit := true;
        break;
      }
    }
  }

  /** split(s, seperator) as written: i skips separators (advancing i and clearing flag on
      each hit), j runs to the next separator or the end, and s[i..j] is pushed when
      non-empty. */
  method Split(s: string, sep: string) returns (result: seq<string>)
    ensures result == Tokens(s, sep)
  {
    result := [];
    var i := 0;
    while i != |s|
      invariant 0 <= i <= |s|
      invariant result + Tokens(s[i..], sep) == Tokens(s, sep)
      decreases |s| - i
    {
      ghost var i0 := i;
      // skip the separators in front of the next token
      var flag := 0;
      while i != |s| && flag == 0
        invariant i0 < |s| && i0 <= i <= |s| && (flag == 0 || flag == 1)
        invariant flag == 1 ==> i < |s| && s[i] !in sep
        invariant Tokens(s[i..], sep) == Tokens(s[i0..], sep)
        decreases |s| - i, 1 - flag
      {
        flag := 1;
        var hit := IsSeparator(s[i], sep);
        if hit {
          TokensSkip(s, sep, i);
          i := i + 1;
          flag := 0;
        }
      }
      // find the end of the token
      flag := 0;
      var j := i;
      while j != |s| && flag == 0
        invariant i <= j <= |s| && (flag == 0 || flag == 1)
        invariant forall p :: i <= p < j ==> s[p] !in sep
        invariant flag == 1 ==> j < |s| && s[j] in sep
        decreases |s| - j, 1 - flag
      {
        var hit := IsSeparator(s[j], sep);
        if hit {
          flag := 1;
        }
        if flag == 0 {
          j := j + 1;
        }
      }
      if i != j {
        TokenAt(s, sep, i, j);
        result := result + [s[i..j]];
        i := j;
      }
    }
    assert s[i..] == [];
  }

  /** A separator at i contributes no token. */
  lemma TokensSkip(s: string, sep: string, i: nat)
    requires i < |s| && s[i] in sep
    ensures Tokens(s[i..], sep) == Tokens(s[i + 1..], sep)
  {
    assert s[i..][0] == s[i] && s[i..][1..] == s[i + 1..];
  }

  /** The token starting at a non-separator i runs to j, the next separator or the end. */
  lemma TokenAt(s: string, sep: string, i: nat, j: nat)
    requires i < j <= |s|
    requires forall p :: i <= p < j ==> s[p] !in sep
    requires j < |s| ==> s[j] in sep
    ensures Tokens(s[i..], sep) == [s[i..j]] + Tokens(s[j..], sep)
  {
    var t := s[i..];
    WordLengthIs(t, sep, j - i);
    assert t[0] == s[i];
    assert t[..j - i] == s[i..j];
    assert t[j - i..] == s[j..];
  }
}
