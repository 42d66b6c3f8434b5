/** String helpers with Python's meaning: `str.startswith`, `in` on strings,
    `str.split` and `str.join` with a one-character separator, `split(sep)[-1]`
    with a longer separator that has no border (see `AfterLast`), and
    `str.lower` on ASCII letters. */
module Strings {

  /** `s.startswith(prefix)`: `s` is `prefix` followed by the rest of `s`. */
  predicate StartsWith(s: string, prefix: string)
  {
    |prefix| <= |s| && s[..|prefix|] == prefix
  }

  predicate OccursAt(s: string, sub: string, i: int)
  {
    0 <= i && i + |sub| <= |s| && s[i..i + |sub|] == sub
  }

  /** `sub in s` */
  predicate Contains(s: string, sub: string)
  {
    exists i | 0 <= i <= |s| :: OccursAt(s, sub, i)
  }

  /** `s.split(c)`: the pieces between the occurrences of `c`; never empty. */
  function Split(s: string, c: char): (pieces: seq<string>)
    ensures |pieces| >= 1
  {
    if s == [] then [""]
    else
      var init := Split(s[..|s| - 1], c);
      if s[|s| - 1] == c then init + [""]
      else init[..|init| - 1] + [init[|init| - 1] + [s[|s| - 1]]]
  }

  /** `c.join(pieces)` */
  function Join(pieces: seq<string>, c: char): string
  {
    if |pieces| == 0 then ""
    else if |pieces| == 1 then pieces[0]
    else Join(pieces[..|pieces| - 1], c) + [c] + pieces[|pieces| - 1]
  }

  /** The text after the rightmost occurrence of `sep`, or all of `s` when
      there is none. This is `s.split(sep)[-1]` when `sep` has no border
      (`NoBorder`); Python splits at leftmost occurrences, so for "aa" in
      "aaa" it gives "a" where this gives "". */
  function AfterLast(s: string, sep: string): string
    requires |sep| > 0
  {
    if |s| < |sep| then s
    else if s[|s| - |sep|..] == sep then ""
    else AfterLast(s[..|s| - 1], sep) + [s[|s| - 1]]
  }

  function LowerChar(ch: char): char
  {
    if 'A' <= ch <= 'Z' then (ch as int + 32) as char else ch
  }

  /** `s.lower()`, restricted to ASCII letters. */
  function Lower(s: string): (r: string)
    ensures |r| == |s|
    ensures forall i :: 0 <= i < |s| ==> r[i] == LowerChar(s[i])
  {
    seq(|s|, i requires 0 <= i < |s| => LowerChar(s[i]))
  }

  /** `s.startswith(prefix)` holds exactly when `s` is `prefix` followed by some text. */
  lemma StartsWithMeaning(s: string, prefix: string)
    ensures StartsWith(s, prefix) <==> exists rest :: s == prefix + rest
  {
    if StartsWith(s, prefix) {
      assert s == prefix + s[|prefix|..];
    }
    forall rest | s == prefix + rest ensures StartsWith(s, prefix) {
      assert s[..|prefix|] == prefix;
    }
  }

  /** `sub in s` holds exactly when `s` is some text, then `sub`, then some text. */
  lemma ContainsMeaning(s: string, sub: string)
    ensures Contains(s, sub) <==> exists a, b :: s == a + sub + b
  {
    if Contains(s, sub) {
      var i :| 0 <= i <= |s| && OccursAt(s, sub, i);
      assert s == s[..i] + sub + s[i + |sub|..];
    }
    forall a, b | s == a + sub + b ensures Contains(s, sub) {
      assert s[|a|..|a| + |sub|] == sub;
      assert OccursAt(s, sub, |a|);
    }
  }

  lemma SplitSnoc(s: string, ch: char, c: char)
    ensures var p := Split(s, c);
      Split(s + [ch], c) == if ch == c then p + [""] else p[..|p| - 1] + [p[|p| - 1] + [ch]]
  {
    assert (s + [ch])[..|s|] == s;
  }

  /** Joining the pieces with the separator gives back the string. */
  lemma {:induction false} JoinSplit(s: string, c: char)
    ensures Join(Split(s, c), c) == s
  {
    if s != [] {
      var init := s[..|s| - 1];
      JoinSplit(init, c);
      var p := Split(init, c);
      if s[|s| - 1] == c {
        assert (p + [""])[..|p|] == p;
      } else {
        var q := p[..|p| - 1] + [p[|p| - 1] + [s[|s| - 1]]];
        assert q[..|q| - 1] == p[..|p| - 1];
        if |p| > 1 {
          assert Join(p, c) == Join(p[..|p| - 1], c) + [c] + p[|p| - 1];
        }
      }
    }
  }

  /** No piece contains the separator. */
  lemma {:induction false} SplitPiecesFree(s: string, c: char)
    ensures forall p :: p in Split(s, c) ==> c !in p
  {
    if s != [] {
      SplitPiecesFree(s[..|s| - 1], c);
      var p := Split(s[..|s| - 1], c);
      if s[|s| - 1] != c {
        assert forall x :: x in p[..|p| - 1] ==> x in p;
      }
    }
  }

  /** A string without the separator is a single piece. */
  lemma {:induction false} SplitFree(s: string, c: char)
    requires c !in s
    ensures Split(s, c) == [s]
  {
    if s != [] {
      SplitFree(s[..|s| - 1], c);
      assert s == s[..|s| - 1] + [s[|s| - 1]];
    }
  }

  /** Splitting at one occurrence of the separator gives the pieces of the
      left side followed by the pieces of the right side. */
  lemma {:induction false} SplitAt(a: string, c: char, b: string)
    ensures Split(a + [c] + b, c) == Split(a, c) + Split(b, c)
  {
    if b == [] {
      assert a + [c] + b == a + [c];
      SplitSnoc(a, c, c);
    } else {
      var b', ch := b[..|b| - 1], b[|b| - 1];
      SplitAt(a, c, b');
      assert a + [c] + b == (a + [c] + b') + [ch];
      assert b == b' + [ch];
      SplitAtSnoc(a, c, b', ch);
    }
  }

  /** There are at least two pieces exactly when the separator occurs. */
  lemma SplitCount(s: string, c: char)
    ensures |Split(s, c)| >= 2 <==> c in s
  {
    if c in s {
      var i :| 0 <= i < |s| && s[i] == c;
      assert s == s[..i] + [c] + s[i + 1..];
      SplitAt(s[..i], c, s[i + 1..]);
    } else {
      SplitFree(s, c);
    }
  }

  lemma SplitAtSnoc(a: string, c: char, b: string, ch: char)
    requires Split(a + [c] + b, c) == Split(a, c) + Split(b, c)
    ensures Split(a + [c] + b + [ch], c) == Split(a, c) + Split(b + [ch], c)
  {
    SplitSnoc(a + [c] + b, ch, c);
    SplitSnoc(b, ch, c);
    var left, right := Split(a, c), Split(b, c);
    if ch != c {
      ExtendLastPiece(left, right, ch);
    } else {
      AppendAssoc(left, right, [""]);
    }
  }

  /** Extending the last piece of `left + right` extends the last piece of `right`. */
  lemma ExtendLastPiece(left: seq<string>, right: seq<string>, ch: char)
    requires |right| > 0
    ensures var p := left + right;
      p[..|p| - 1] + [p[|p| - 1] + [ch]] == left + (right[..|right| - 1] + [right[|right| - 1] + [ch]])
  {
    ConcatDropLast(left, right);
    AppendAssoc(left, right[..|right| - 1], [right[|right| - 1] + [ch]]);
  }

  lemma ConcatDropLast<T>(l: seq<T>, r: seq<T>)
    requires |r| > 0
    ensures (l + r)[..|l + r| - 1] == l + r[..|r| - 1]
    ensures (l + r)[|l + r| - 1] == r[|r| - 1]
  {
  }

  /** `k` is a suffix of `s` and, unless it is all of `s`, comes right after `sep`. */
  ghost predicate SuffixAfterSeparator(s: string, sep: string, k: string)
  {
    && |k| <= |s| && s[|s| - |k|..] == k
    && (|k| < |s| ==> |k| + |sep| <= |s| && s[|s| - |k| - |sep|..|s| - |k|] == sep)
  }

  lemma {:induction false} AfterLastSuffix(s: string, sep: string)
    requires |sep| > 0
    ensures SuffixAfterSeparator(s, sep, AfterLast(s, sep))
  {
    if |s| < |sep| {
    } else if s[|s| - |sep|..] == sep {
      assert s[|s| - |sep|..|s|] == sep;
    } else {
      AfterLastSuffix(s[..|s| - 1], sep);
      DropLastSnoc(s);
      SuffixSnoc(s[..|s| - 1], s[|s| - 1], sep, AfterLast(s[..|s| - 1], sep));
    }
  }

  lemma SuffixSnoc(init: string, ch: char, sep: string, k: string)
    requires SuffixAfterSeparator(init, sep, k)
    ensures SuffixAfterSeparator(init + [ch], sep, k + [ch])
  {
    var s := init + [ch];
    assert s[|s| - |k| - 1..] == init[|init| - |k|..] + [ch];
    if |k| < |init| {
      assert s[|s| - |k| - 1 - |sep|..|s| - |k| - 1] == init[|init| - |k| - |sep|..|init| - |k|];
    }
  }

  lemma {:induction false} AfterLastFree(s: string, sep: string)
    requires |sep| > 0
    ensures !Contains(AfterLast(s, sep), sep)
  {
    if |s| >= |sep| && s[|s| - |sep|..] != sep {
      var init, ch := s[..|s| - 1], s[|s| - 1];
      var k0 := AfterLast(init, sep);
      AfterLastFree(init, sep);
      NoSeparatorAtTail(s, sep);
      FreeSnoc(k0, ch, sep);
    }
  }

  /** `k` does not end with `sep`. */
  ghost predicate EndsWithout(k: string, sep: string)
  {
    |sep| <= |k| ==> k[|k| - |sep|..] != sep
  }

  /** When `s` does not end with `sep`, neither does `AfterLast(s, sep)`. */
  lemma NoSeparatorAtTail(s: string, sep: string)
    requires |sep| > 0 && |s| >= |sep| && s[|s| - |sep|..] != sep
    ensures var k := AfterLast(s, sep);
      k == AfterLast(s[..|s| - 1], sep) + [s[|s| - 1]] && EndsWithout(k, sep)
  {
    AfterLastStep(s, sep);
    AfterLastSuffix(s, sep);
    SuffixKeepsTail(s, sep, AfterLast(s, sep));
  }

  lemma AfterLastStep(s: string, sep: string)
    requires |sep| > 0 && |s| >= |sep| && s[|s| - |sep|..] != sep
    ensures AfterLast(s, sep) == AfterLast(s[..|s| - 1], sep) + [s[|s| - 1]]
  {
  }

  lemma SuffixKeepsTail(s: string, sep: string, k: string)
    requires |sep| > 0 && |s| >= |sep| && s[|s| - |sep|..] != sep
    requires SuffixAfterSeparator(s, sep, k)
    ensures EndsWithout(k, sep)
  {
    if |sep| <= |k| {
      TailOfSuffix(s, k, |sep|);
    }
  }

  lemma FreeSnoc(k: string, ch: char, sep: string)
    requires |sep| > 0 && !Contains(k, sep)
    requires EndsWithout(k + [ch], sep)
    ensures !Contains(k + [ch], sep)
  {
    var k2 := k + [ch];
    forall i | OccursAt(k2, sep, i) ensures false {
      if i + |sep| <= |k| {
        assert k[i..i + |sep|] == k2[i..i + |sep|];
        assert OccursAt(k, sep, i);
      }
    }
  }

  /** The piece after the last separator holds no separator, is a suffix of
      the string, and is preceded by the separator unless it is the whole string. */
  lemma AfterLastIsLastPiece(s: string, sep: string)
    requires |sep| > 0
    ensures !Contains(AfterLast(s, sep), sep)
    ensures SuffixAfterSeparator(s, sep, AfterLast(s, sep))
  {
    AfterLastFree(s, sep);
    AfterLastSuffix(s, sep);
  }

  /** No proper prefix of `sep` is also a suffix of it, so two occurrences
      of `sep` never overlap. */
  ghost predicate NoBorder(sep: string)
  {
    forall m :: 0 < m < |sep| ==> sep[..m] != sep[|sep| - m..]
  }

  /** Appending a separator and a separator-free text makes that text the last piece. */
  lemma AfterLastOfSuffix(q: string, sep: string, k: string)
    requires |sep| > 0 && NoBorder(sep) && !Contains(k, sep)
    ensures AfterLast(q + sep + k, sep) == k
  {
    var s := q + sep;
    assert s[|s| - |sep|..] == sep;
    AfterLastAppend(s, sep, k);
  }

  lemma {:induction false} AfterLastAppend(s: string, sep: string, k: string)
    requires |sep| > 0 && NoBorder(sep) && !Contains(k, sep)
    requires |sep| <= |s| && s[|s| - |sep|..] == sep
    ensures AfterLast(s + k, sep) == k
  {
    if k == [] {
      assert s + k == s;
    } else {
      var k', ch := k[..|k| - 1], k[|k| - 1];
      DropLastSnoc(k);
      NotContainsPrefix(k, sep);
      AfterLastAppend(s, sep, k');
      NoSeparatorAtEnd(s, sep, k', ch);
      AfterLastSnoc(s + k', ch, sep);
      AppendAssoc(s, k', [ch]);
    }
  }

  /** Sequence facts kept apart from the string functions, whose unfolding
      makes the solver slow on them. */
  lemma DropLastSnoc<T>(s: seq<T>)
    requires |s| > 0
    ensures s[..|s| - 1] + [s[|s| - 1]] == s
  {
  }

  lemma AppendSnoc<T>(s: seq<T>, d: seq<T>)
    requires |d| > 0
    ensures s + d == (s + d[..|d| - 1]) + [d[|d| - 1]]
  {
    DropLastSnoc(d);
    AppendAssoc(s, d[..|d| - 1], [d[|d| - 1]]);
  }

  /** The parts of a list with one more element. */
  lemma SnocParts<T>(k: seq<T>, a: T)
    ensures (k + [a])[..|k + [a]| - 1] == k && (k + [a])[|k + [a]| - 1] == a
  {
  }

  /** The parts of a list with two more elements. */
  lemma PairParts<T>(k: seq<T>, a: T, b: T)
    ensures (k + [a, b])[..|k + [a, b]| - 2] == k
    ensures (k + [a, b])[|k + [a, b]| - 2] == a && (k + [a, b])[|k + [a, b]| - 1] == b
    ensures k + [a, b] == (k + [a]) + [b]
  {
  }

  lemma TailOfSuffix<T>(s: seq<T>, k: seq<T>, n: nat)
    requires n <= |k| <= |s| && s[|s| - |k|..] == k
    ensures k[|k| - n..] == s[|s| - n..]
  {
    assert k[|k| - n..] == s[|s| - |k|..][|k| - n..];
  }

  lemma SwapEmpty<T>(a: seq<T>, x: seq<T>, l: seq<T>)
    requires x == [] || l == []
    ensures a + x + l == a + l + x
  {
    if x == [] {
      assert a + x == a;
    } else {
      assert a + l == a;
    }
  }

  lemma EmptyAppend<T>(a: seq<T>)
    ensures [] + a == a
  {
  }

  lemma AppendAssoc<T>(a: seq<T>, b: seq<T>, c: seq<T>)
    ensures (a + b) + c == a + (b + c)
  {
  }

  lemma AfterLastSnoc(x: string, ch: char, sep: string)
    requires |sep| > 0 && |sep| <= |x| + 1 && (x + [ch])[|x| + 1 - |sep|..] != sep
    ensures AfterLast(x + [ch], sep) == AfterLast(x, sep) + [ch]
  {
    assert (x + [ch])[..|x|] == x;
  }

  /** An occurrence of `sep` at the end of `s + k` that overlaps the `sep`
      ending `s` makes a border of `sep`. */
  lemma OverlapIsBorder(s: string, sep: string, k: string)
    ensures 0 < |k| < |sep| <= |s| && s[|s| - |sep|..] == sep && (s + k)[|s| + |k| - |sep|..] == sep
      ==> sep[..|sep| - |k|] == sep[|k|..]
  {
    if 0 < |k| < |sep| <= |s| && s[|s| - |sep|..] == sep && (s + k)[|s| + |k| - |sep|..] == sep {
      var t, m := s + k, |sep| - |k|;
      assert sep[..m] == t[|t| - |sep|..|s|];
      assert t[|t| - |sep|..|s|] == s[|s| - m..];
    }
  }

  lemma NotContainsPrefix(k: string, sep: string)
    requires |k| > 0 && !Contains(k, sep)
    ensures !Contains(k[..|k| - 1], sep)
  {
    var k' := k[..|k| - 1];
    forall i | OccursAt(k', sep, i) ensures false {
      assert k[i..i + |sep|] == k'[i..i + |sep|];
      assert OccursAt(k, sep, i);
    }
  }

  lemma NoSeparatorAtEnd(s: string, sep: string, k: string, ch: char)
    requires |sep| > 0 && NoBorder(sep) && !Contains(k + [ch], sep)
    requires |sep| <= |s| && s[|s| - |sep|..] == sep
    ensures |sep| <= |s + k| + 1 && ((s + k) + [ch])[|s + k| + 1 - |sep|..] != sep
  {
    var kk := k + [ch];
    var t := (s + k) + [ch];
    AppendAssoc(s, k, [ch]);
    if |sep| <= |kk| {
      assert t[|t| - |sep|..] == kk[|kk| - |sep|..];
      assert !OccursAt(kk, sep, |kk| - |sep|);
    } else if t[|t| - |sep|..] == sep {
      OverlapIsBorder(s, sep, kk);
      assert false;
    }
  }

  /** Splitting the pieces joined by a separator none of them holds gives them back. */
  lemma {:induction false} SplitJoin(pieces: seq<string>, c: char)
    requires |pieces| >= 1 && forall i :: 0 <= i < |pieces| ==> c !in pieces[i]
    ensures Split(Join(pieces, c), c) == pieces
  {
    if |pieces| == 1 {
      SplitFree(pieces[0], c);
    } else {
      var init, last := pieces[..|pieces| - 1], pieces[|pieces| - 1];
      assert forall i :: 0 <= i < |init| ==> init[i] == pieces[i];
      SplitJoin(init, c);
      SplitAt(Join(init, c), c, last);
      SplitFree(last, c);
      DropLastSnoc(pieces);
    }
  }

  /** The pieces, each lowered. */
  function LowerAll(pieces: seq<string>): (r: seq<string>)
    ensures |r| == |pieces|
  {
    seq(|pieces|, i requires 0 <= i < |pieces| => Lower(pieces[i]))
  }

  /** Lowering a joined text lowers each piece and keeps the separator, when
      the separator is not an upper-case letter. */
  lemma {:induction false} LowerJoin(pieces: seq<string>, c: char)
    requires LowerChar(c) == c
    ensures Lower(Join(pieces, c)) == Join(LowerAll(pieces), c)
  {
    if |pieces| > 1 {
      var init := pieces[..|pieces| - 1];
      LowerJoin(init, c);
      assert LowerAll(pieces)[..|pieces| - 1] == LowerAll(init);
      LowerAppend(Join(init, c) + [c], pieces[|pieces| - 1]);
      LowerAppend(Join(init, c), [c]);
    }
  }

  lemma LowerAppend(a: string, b: string)
    ensures Lower(a + b) == Lower(a) + Lower(b)
  {
  }
}
