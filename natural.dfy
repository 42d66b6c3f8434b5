/** The sort keys of kicad2bom.py. `alphanumKey(x)` splits `x` at its runs
    of ASCII digits, keeping them (`re.split('([0-9]+)', x)`), turns each
    digit run into its integer value and lowers every other part; Python
    then compares the resulting lists element by element. */
module NaturalOrder {
  import opened Strings

  /** One element of a key list: a lowered text part or a number. */
  datatype Chunk = Text(text: string) | Number(n: nat)

  predicate IsDigit(ch: char)
  {
    '0' <= ch <= '9'
  }

  function DigitValue(ch: char): nat
    requires IsDigit(ch)
  {
    ch as int - '0' as int
  }

  /** `int(a)` for a run of ASCII digits. */
  function Value(a: string): nat
    requires forall i :: 0 <= i < |a| ==> IsDigit(a[i])
  {
    if a == [] then 0 else 10 * Value(a[..|a| - 1]) + DigitValue(a[|a| - 1])
  }

  /** The key list of a text ends with its trailing non-digit run, and the
      parts alternate text, number, text, ..., starting and ending with text. */
  ghost predicate Alternating(k: seq<Chunk>)
  {
    && |k| % 2 == 1
    && forall i :: 0 <= i < |k| ==> (k[i].Text? <==> i % 2 == 0)
  }

  /** The key list after one more character. */
  function Extend(k: seq<Chunk>, ch: char): (r: seq<Chunk>)
    requires Alternating(k)
    ensures Alternating(r)
  {
    var last := k[|k| - 1].text;
    if !IsDigit(ch) then k[..|k| - 1] + [Text(last + [LowerChar(ch)])]
    else if last == [] && |k| > 1 then k[..|k| - 2] + [Number(10 * k[|k| - 2].n + DigitValue(ch)), Text("")]
    else k + [Number(DigitValue(ch)), Text("")]
  }

  /** `alphanumKey(s)` */
  function NaturalKey(s: string): (r: seq<Chunk>)
    ensures Alternating(r)
  {
    if s == [] then [Text("")] else Extend(NaturalKey(s[..|s| - 1]), s[|s| - 1])
  }

  // ---------------------------------------------------------------------
  // Python's comparisons

  /** `<` on Python strings: by code point, a proper prefix first. */
  predicate StrLess(a: string, b: string)
  {
    if a == [] then b != []
    else if b == [] then false
    else a[0] < b[0] || (a[0] == b[0] && StrLess(a[1..], b[1..]))
  }

  /** `<` on two parts at the same position. Text parts sit at even
      positions and numbers at odd ones in every key list, so Python never
      compares a number with a text; ordering numbers first only makes the
      relation total. */
  predicate ChunkLess(x: Chunk, y: Chunk)
  {
    match (x, y)
    case (Text(a), Text(b)) => StrLess(a, b)
    case (Number(m), Number(n)) => m < n
    case (Number(_), Text(_)) => true
    case (Text(_), Number(_)) => false
  }

  /** `<` on Python lists: element by element, a proper prefix first. */
  predicate KeyLess(a: seq<Chunk>, b: seq<Chunk>)
  {
    if a == [] then b != []
    else if b == [] then false
    else ChunkLess(a[0], b[0]) || (a[0] == b[0] && KeyLess(a[1..], b[1..]))
  }

  lemma {:induction false} StrLessIrreflexive(a: string)
    ensures !StrLess(a, a)
  {
    if a != [] {
      StrLessIrreflexive(a[1..]);
    }
  }

  lemma {:induction false} StrLessTransitive(a: string, b: string, c: string)
    requires StrLess(a, b) && StrLess(b, c)
    ensures StrLess(a, c)
  {
    if a != [] && a[0] == b[0] && b[0] == c[0] {
      StrLessTransitive(a[1..], b[1..], c[1..]);
    }
  }

  lemma {:induction false} StrLessTotal(a: string, b: string)
    ensures a == b || StrLess(a, b) || StrLess(b, a)
  {
    if a != [] && b != [] && a[0] == b[0] {
      StrLessTotal(a[1..], b[1..]);
      if a[1..] == b[1..] {
        assert a == [a[0]] + a[1..] && b == [b[0]] + b[1..];
      }
    }
  }

  lemma ChunkLessIrreflexive(x: Chunk)
    ensures !ChunkLess(x, x)
  {
    if x.Text? {
      StrLessIrreflexive(x.text);
    }
  }

  lemma ChunkLessTransitive(x: Chunk, y: Chunk, z: Chunk)
    requires ChunkLess(x, y) && ChunkLess(y, z)
    ensures ChunkLess(x, z)
  {
    if x.Text? && y.Text? && z.Text? {
      StrLessTransitive(x.text, y.text, z.text);
    }
  }

  lemma ChunkLessTotal(x: Chunk, y: Chunk)
    ensures x == y || ChunkLess(x, y) || ChunkLess(y, x)
  {
    if x.Text? && y.Text? {
      StrLessTotal(x.text, y.text);
    }
  }

  /** No key list comes before itself. */
  lemma {:induction false} KeyLessIrreflexive(a: seq<Chunk>)
    ensures !KeyLess(a, a)
  {
    if a != [] {
      ChunkLessIrreflexive(a[0]);
      KeyLessIrreflexive(a[1..]);
    }
  }

  /** The order on key lists is transitive. */
  lemma {:induction false} KeyLessTransitive(a: seq<Chunk>, b: seq<Chunk>, c: seq<Chunk>)
    requires KeyLess(a, b) && KeyLess(b, c)
    ensures KeyLess(a, c)
  {
    if a != [] && b != [] && c != [] {
      if ChunkLess(a[0], b[0]) && ChunkLess(b[0], c[0]) {
        ChunkLessTransitive(a[0], b[0], c[0]);
      } else if a[0] == b[0] && b[0] == c[0] {
        KeyLessTransitive(a[1..], b[1..], c[1..]);
      }
    }
  }

  /** Any two different key lists are ordered one way or the other. */
  lemma {:induction false} KeyLessTotal(a: seq<Chunk>, b: seq<Chunk>)
    ensures a == b || KeyLess(a, b) || KeyLess(b, a)
  {
    if a != [] && b != [] {
      ChunkLessTotal(a[0], b[0]);
      if a[0] == b[0] {
        KeyLessTotal(a[1..], b[1..]);
        if a[1..] == b[1..] {
          assert a == [a[0]] + a[1..] && b == [b[0]] + b[1..];
        }
      }
    }
  }

  // ---------------------------------------------------------------------
  // What the keys mean

  predicate AllDigits(a: string)
  {
    forall i :: 0 <= i < |a| ==> IsDigit(a[i])
  }

  predicate NoDigits(t: string)
  {
    forall i :: 0 <= i < |t| ==> !IsDigit(t[i])
  }

  /** A text without digits is a single lowered part. */
  lemma {:induction false} KeyOfText(t: string)
    requires NoDigits(t)
    ensures NaturalKey(t) == [Text(Lower(t))]
  {
    if t != [] {
      var init := t[..|t| - 1];
      KeyOfText(init);
      assert Lower(t) == Lower(init) + [LowerChar(t[|t| - 1])];
    }
  }

  /** Digits after a digit-free text make one number part, worth the
      digits' integer value, followed by an empty text part. */
  lemma {:induction false} KeyOfTextNumber(t: string, a: string)
    requires NoDigits(t) && AllDigits(a) && a != []
    ensures NaturalKey(t + a) == [Text(Lower(t)), Number(Value(a)), Text("")]
  {
    var init := a[..|a| - 1];
    assert (t + a)[..|t + a| - 1] == t + init;
    if init == [] {
      assert t + init == t;
      KeyOfText(t);
    } else {
      KeyOfTextNumber(t, init);
    }
  }

  /** A key list of a text ending in a non-digit ends with a non-empty text part. */
  lemma LastPartNonEmpty(s: string)
    requires s != [] && !IsDigit(s[|s| - 1])
    ensures var k := NaturalKey(s); k[|k| - 1].text != []
  {
  }

  /** A first digit after text opens a number part and an empty text part. */
  lemma KeySnocFirstDigit(w: string, ch: char)
    requires w == [] || !IsDigit(w[|w| - 1])
    requires IsDigit(ch)
    ensures NaturalKey(w + [ch]) == NaturalKey(w) + [Number(DigitValue(ch)), Text("")]
  {
    SnocParts(w, ch);
    if w != [] {
      LastPartNonEmpty(w);
    }
  }

  /** A further digit grows the number part. */
  lemma KeySnocNextDigit(w: string, ch: char, k: seq<Chunk>, v: nat)
    requires NaturalKey(w) == k + [Number(v), Text("")] && IsDigit(ch)
    ensures NaturalKey(w + [ch]) == k + [Number(10 * v + DigitValue(ch)), Text("")]
  {
    SnocParts(w, ch);
    PairParts(k, Number(v), Text(""));
  }

  /** A non-digit is lowered and appended to the last text part. */
  lemma KeySnocText(w: string, ch: char, k: seq<Chunk>, last: string)
    requires NaturalKey(w) == k + [Text(last)] && !IsDigit(ch)
    ensures NaturalKey(w + [ch]) == k + [Text(last + [LowerChar(ch)])]
  {
    SnocParts(w, ch);
    SnocParts(k, Text(last));
  }

  /** A digit run after a text that does not end in a digit adds one number
      part worth the run's value and an empty text part. */
  lemma {:induction false} KeyAppendDigits(s: string, d: string)
    requires s == [] || !IsDigit(s[|s| - 1])
    requires AllDigits(d) && d != []
    ensures NaturalKey(s + d) == NaturalKey(s) + [Number(Value(d)), Text("")]
  {
    if |d| == 1 {
      KeyOneDigit(s, d);
    } else {
      var init, x := d[..|d| - 1], d[|d| - 1];
      ValueSnoc(d);
      KeyAppendDigits(s, init);
      KeyNextDigit(s, init, x, NaturalKey(s), Value(init));
      DropLastSnoc(d);
    }
  }

  lemma KeyOneDigit(s: string, d: string)
    requires s == [] || !IsDigit(s[|s| - 1])
    requires AllDigits(d) && |d| == 1
    ensures NaturalKey(s + d) == NaturalKey(s) + [Number(Value(d)), Text("")]
  {
    ValueOne(d);
    KeySnocFirstDigit(s, d[0]);
  }

  lemma ValueOne(d: string)
    requires AllDigits(d) && |d| == 1
    ensures d == [d[0]] && IsDigit(d[0]) && Value(d) == DigitValue(d[0])
  {
    assert d[..0] == [];
  }

  lemma KeyNextDigit(s: string, init: string, x: char, k: seq<Chunk>, v: nat)
    requires IsDigit(x) && NaturalKey(s + init) == k + [Number(v), Text("")]
    ensures NaturalKey(s + (init + [x])) == k + [Number(10 * v + DigitValue(x)), Text("")]
  {
    AppendAssoc(s, init, [x]);
    KeySnocNextDigit(s + init, x, k, v);
  }

  /** The value of a digit run is ten times the value of its prefix plus its
      last digit. */
  lemma ValueSnoc(d: string)
    requires AllDigits(d) && d != []
    ensures AllDigits(d[..|d| - 1]) && IsDigit(d[|d| - 1])
    ensures Value(d) == 10 * Value(d[..|d| - 1]) + DigitValue(d[|d| - 1])
  {
  }

  /** Digit-free text extends the last text part by its lowered form. */
  lemma {:induction false} KeyAppendText(s: string, t: string, k: seq<Chunk>, last: string)
    requires NaturalKey(s) == k + [Text(last)] && NoDigits(t)
    ensures NaturalKey(s + t) == k + [Text(last + Lower(t))]
  {
    if t == [] {
      EmptyAppend(s);
      assert s + t == s && last + Lower(t) == last;
    } else {
      var init, x := t[..|t| - 1], t[|t| - 1];
      AppendSnoc(s, t);
      KeyAppendText(s, init, k, last);
      KeySnocText(s + init, x, k, last + Lower(init));
      DropLastSnoc(t);
      LowerAppend(init, [x]);
      assert Lower([x]) == [LowerChar(x)];
      AppendAssoc(last, Lower(init), [LowerChar(x)]);
    }
  }

  /** Digit-free text after a number part becomes the next text part. */
  lemma KeyTextAfterNumber(u: string, t: string, k: seq<Chunk>, v: nat)
    requires NaturalKey(u) == k + [Number(v), Text("")] && NoDigits(t)
    ensures NaturalKey(u + t) == k + [Number(v), Text(Lower(t))]
  {
    PairParts(k, Number(v), Text(""));
    KeyAppendText(u, t, k + [Number(v)], "");
    EmptyAppend(Lower(t));
    PairParts(k, Number(v), Text(Lower(t)));
  }

  /** Each further digit run and the text after it add a number part and
      a lowered text part to the key list: the key of `s + d + t` is the
      key of `s` followed by the value of `d` and the lowered `t`. */
  lemma NaturalKeyAppendRun(s: string, d: string, t: string)
    requires s == [] || !IsDigit(s[|s| - 1])
    requires AllDigits(d) && d != [] && NoDigits(t)
    ensures NaturalKey(s + d + t) == NaturalKey(s) + [Number(Value(d)), Text(Lower(t))]
  {
    KeyAppendDigits(s, d);
    KeyTextAfterNumber(s + d, t, NaturalKey(s), Value(d));
  }

  /** Two references with the same prefix compare by the value of their
      numbers, not by the digits' characters: "R9" comes before "R10". */
  lemma NumbersCompareByValue(t: string, a: string, b: string)
    requires NoDigits(t) && AllDigits(a) && AllDigits(b) && a != [] && b != []
    ensures KeyLess(NaturalKey(t + a), NaturalKey(t + b)) <==> Value(a) < Value(b)
    ensures NaturalKey(t + a) == NaturalKey(t + b) <==> Value(a) == Value(b)
  {
    KeyOfTextNumber(t, a);
    KeyOfTextNumber(t, b);
    StrLessIrreflexive(Lower(t));
    var ka, kb := NaturalKey(t + a), NaturalKey(t + b);
    assert ka[1..][1..] == [Text("")] && kb[1..][1..] == [Text("")];
    KeyLessIrreflexive([Text("")]);
  }

  /** The key ignores case. */
  lemma {:induction false} KeyIgnoresCase(s: string)
    ensures NaturalKey(Lower(s)) == NaturalKey(s)
  {
    if s != [] {
      var init := s[..|s| - 1];
      KeyIgnoresCase(init);
      assert Lower(s)[..|s| - 1] == Lower(init);
      var ch := s[|s| - 1];
      assert IsDigit(LowerChar(ch)) == IsDigit(ch);
      assert LowerChar(LowerChar(ch)) == LowerChar(ch);
      if IsDigit(ch) {
        assert LowerChar(ch) == ch;
      }
    }
  }

  /** The designator examples: R1, R2, R10 in that order, although "R10"
      comes before "R2" as a plain string. */
  lemma DesignatorOrder()
    ensures KeyLess(NaturalKey("R1"), NaturalKey("R2"))
    ensures KeyLess(NaturalKey("R2"), NaturalKey("R10"))
    ensures StrLess("R10", "R2")
  {
    var r := "R";
    assert NoDigits(r);
    assert "R1" == r + "1" && "R2" == r + "2" && "R10" == r + "10";
    assert "10"[..1] == "1";
    NumbersCompareByValue(r, "1", "2");
    NumbersCompareByValue(r, "2", "10");
    assert "R10"[1..] == "10" && "R2"[1..] == "2";
  }
}
