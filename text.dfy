/**
 * Behaviour of Rust's standard library that the argument parser relies on:
 * joining graphemes into one string (`String::push_str`) and `str::trim`.
 * The repository has no module of its own for these; they are gathered here
 * so that `Args` can state its properties over them.
 */
module Text {

  /** The concatenation, in order, of a sequence of sequences. */
  function Flatten<T>(ss: seq<seq<T>>): seq<T>
  {
    if |ss| == 0 then [] else Flatten(ss[..|ss| - 1]) + ss[|ss| - 1]
  }

  /** Concatenation is associative. */
  lemma ConcatAssoc<T>(a: seq<T>, b: seq<T>, c: seq<T>)
    ensures a + (b + c) == a + b + c
  {
  }

  /** A common prefix cancels. */
  lemma SeqCancel<T>(x: seq<T>, p: seq<T>, a: seq<T>, b: seq<T>)
    requires x + p == x + a + b
    ensures p == a + b
  {
    assert p == (x + p)[|x|..];
    assert (x + a + b)[|x|..] == a + b;
  }

  /** A non-empty sequence is its prefix followed by its last element, and is its own full prefix. */
  lemma LastSplit<T>(s: seq<T>)
    requires |s| > 0
    ensures s == s[..|s| - 1] + [s[|s| - 1]]
    ensures s[..|s|] == s
  {
  }

  /** Extending a prefix by one element. */
  lemma PrefixSnoc<T>(s: seq<T>, i: nat)
    requires i < |s|
    ensures s[..i + 1] == s[..i] + [s[i]]
    ensures s[..i + 1][..i] == s[..i]
  {
  }

  /** Appending one element leaves the original as prefix. */
  lemma SnocPrefix<T>(s: seq<T>, x: T)
    ensures (s + [x])[..|s|] == s
    ensures (s + [x])[|s|] == x
  {
  }

  /** Flattening one more piece appends that piece. */
  lemma FlattenSnoc<T>(ss: seq<seq<T>>, s: seq<T>)
    ensures Flatten(ss + [s]) == Flatten(ss) + s
  {
    assert (ss + [s])[..|ss|] == ss;
  }

  /** Flattening distributes over concatenation. */
  lemma {:induction false} FlattenAppend<T>(a: seq<seq<T>>, b: seq<seq<T>>)
    ensures Flatten(a + b) == Flatten(a) + Flatten(b)
  {
    if |b| == 0 {
      assert a + b == a;
    } else {
      var b' := b[..|b| - 1];
      assert b == b' + [b[|b| - 1]];
      assert a + b == (a + b') + [b[|b| - 1]];
      FlattenAppend(a, b');
      FlattenSnoc(a + b', b[|b| - 1]);
      FlattenSnoc(b', b[|b| - 1]);
    }
  }

  /** The characters Rust's `char::is_whitespace` accepts: Unicode's White_Space property. */
  const WhiteSpace: set<char> := {
    '\t', '\n', '\U{0B}', '\U{0C}', '\r', ' ', '\U{85}', '\U{A0}', '\U{1680}',
    '\U{2000}', '\U{2001}', '\U{2002}', '\U{2003}', '\U{2004}', '\U{2005}',
    '\U{2006}', '\U{2007}', '\U{2008}', '\U{2009}', '\U{200A}',
    '\U{2028}', '\U{2029}', '\U{202F}', '\U{205F}', '\U{3000}'
  }

  predicate IsWhitespace(c: char) {
    c in WhiteSpace
  }

  ghost predicate AllWhitespace(s: string) {
    forall i :: 0 <= i < |s| ==> IsWhitespace(s[i])
  }

  /** Every character of `s` at an index in `lo .. hi` is whitespace. */
  ghost predicate WhitespaceIn(s: string, lo: nat, hi: nat)
    requires lo <= hi <= |s|
  {
    forall j :: lo <= j < hi ==> IsWhitespace(s[j])
  }

  /** The index of the first character at or after `i` that is not whitespace, or `|s|` (`trim_start`). */
  function SkipStart(s: string, i: nat): (k: nat)
    requires i <= |s|
    ensures i <= k <= |s| && WhitespaceIn(s, i, k)
    ensures k < |s| ==> !IsWhitespace(s[k])
    decreases |s| - i
  {
    if i < |s| && IsWhitespace(s[i]) then SkipStart(s, i + 1) else i
  }

  /** The index just past the last character before `j` that is not whitespace, but no lower than `lo` (`trim_end`). */
  function SkipEnd(s: string, lo: nat, j: nat): (k: nat)
    requires lo <= j <= |s|
    ensures lo <= k <= j && WhitespaceIn(s, k, j)
    ensures lo < k ==> !IsWhitespace(s[k - 1])
  {
    if lo < j && IsWhitespace(s[j - 1]) then SkipEnd(s, lo, j - 1) else j
  }

  /**
   * `str::trim`: `s` with its leading and trailing whitespace removed. The
   * result neither starts nor ends with whitespace.
   */
  function Trim(s: string): (r: string)
    ensures |r| <= |s|
    ensures r == [] || (!IsWhitespace(r[0]) && !IsWhitespace(r[|r| - 1]))
  {
    var i := SkipStart(s, 0);
    s[i..SkipEnd(s, i, |s|)]
  }

  /** Trimming keeps a contiguous part of `s` with only whitespace before and after it. */
  lemma TrimKeepsMiddle(s: string)
    ensures var r := Trim(s);
      exists i :: 0 <= i <= |s| - |r| && r == s[i..i + |r|] && WhitespaceIn(s, 0, i) && WhitespaceIn(s, i + |r|, |s|)
  {
    var i := SkipStart(s, 0);
    var k := SkipEnd(s, i, |s|);
    assert Trim(s) == s[i..k];
  }

  /** Trimming removes everything exactly when the string is all whitespace. */
  lemma TrimEmptyIff(s: string)
    ensures Trim(s) == [] <==> AllWhitespace(s)
  {
    var i := SkipStart(s, 0);
    var k := SkipEnd(s, i, |s|);
    assert Trim(s) == s[i..k];
    if k == i {
      forall j | 0 <= j < |s|
        ensures IsWhitespace(s[j])
      {
        assert j < i || k <= j;
      }
    }
  }

  /** Trimming twice changes nothing. */
  lemma TrimIdempotent(s: string)
    ensures Trim(Trim(s)) == Trim(s)
  {
    var r := Trim(s);
    if r != [] {
      assert SkipStart(r, 0) == 0;
      assert SkipEnd(r, 0, |r|) == |r|;
      assert r[0..|r|] == r;
    }
  }

  /** Flattening a first piece, some middle pieces and a last piece. */
  lemma FlattenThree<T>(a: seq<T>, mid: seq<seq<T>>, b: seq<T>)
    ensures Flatten([a] + mid + [b]) == a + Flatten(mid) + b
  {
    FlattenSnoc([a] + mid, b);
    FlattenAppend([a], mid);
    assert Flatten([a]) == a by {
      assert [a][..0] == [];
    }
  }
}
