/** The sort stage of kicad2bom.py: the sort order is a comma-separated list
    of field names; every name must be a field, and the records are then
    sorted stably once per field, the last field first, so that the first
    field decides and later ones break ties. `ref`, `value` and
    `supplier_ref` sort in natural order, the other fields as plain strings. */
module Sorting {
  import opened Wrappers
  import opened Strings
  import opened Records
  import opened NaturalOrder

  /** The key one field gives a record. */
  function KeyOf(f: Field, c: Component): seq<Chunk>
  {
    if f == Ref || f == Value || f == SupplierRef then NaturalKey(Get(c, f)) else [Text(Get(c, f))]
  }

  /** The keys of the fields `fs`, in order. */
  function Keys(fs: seq<Field>, c: Component): (r: seq<seq<Chunk>>)
    ensures |r| == |fs|
  {
    if fs == [] then [] else [KeyOf(fs[0], c)] + Keys(fs[1..], c)
  }

  /** Lexicographic order on key tuples. */
  predicate KeysLess(a: seq<seq<Chunk>>, b: seq<seq<Chunk>>)
  {
    if a == [] then b != []
    else if b == [] then false
    else KeyLess(a[0], b[0]) || (a[0] == b[0] && KeysLess(a[1..], b[1..]))
  }

  /** `x` sorts strictly before `y` by the fields `fs`. */
  predicate Before(fs: seq<Field>, x: Component, y: Component)
  {
    KeysLess(Keys(fs, x), Keys(fs, y))
  }

  lemma {:induction false} KeysLessIrreflexive(a: seq<seq<Chunk>>)
    ensures !KeysLess(a, a)
  {
    if a != [] {
      KeyLessIrreflexive(a[0]);
      KeysLessIrreflexive(a[1..]);
    }
  }

  lemma {:induction false} KeysLessTransitive(a: seq<seq<Chunk>>, b: seq<seq<Chunk>>, c: seq<seq<Chunk>>)
    requires KeysLess(a, b) && KeysLess(b, c)
    ensures KeysLess(a, c)
  {
    if a != [] && b != [] && c != [] {
      if KeyLess(a[0], b[0]) && KeyLess(b[0], c[0]) {
        KeyLessTransitive(a[0], b[0], c[0]);
      } else if a[0] == b[0] && b[0] == c[0] {
        KeysLessTransitive(a[1..], b[1..], c[1..]);
      }
    }
  }

  lemma {:induction false} KeysLessTotal(a: seq<seq<Chunk>>, b: seq<seq<Chunk>>)
    ensures a == b || KeysLess(a, b) || KeysLess(b, a)
  {
    if a != [] && b != [] {
      KeyLessTotal(a[0], b[0]);
      if a[0] == b[0] {
        KeysLessTotal(a[1..], b[1..]);
        if a[1..] == b[1..] {
          assert a == [a[0]] + a[1..] && b == [b[0]] + b[1..];
        }
      }
    }
  }

  /** "Not after" is transitive. */
  lemma NotBeforeTransitive(fs: seq<Field>, x: Component, y: Component, z: Component)
    requires !Before(fs, y, x) && !Before(fs, z, y)
    ensures !Before(fs, z, x)
  {
    var a, b, c := Keys(fs, x), Keys(fs, y), Keys(fs, z);
    KeysLessTotal(a, b);
    KeysLessTotal(b, c);
    if KeysLess(c, a) {
      if KeysLess(a, b) {
        KeysLessTransitive(c, a, b);
      }
      KeysLessIrreflexive(b);
      if KeysLess(b, c) {
        KeysLessTransitive(b, c, b);
      }
      assert false;
    }
  }
  // ---------------------------------------------------------------------
  // One stable sort

  /** Sorted by the fields `fs`: no record comes after one it sorts before. */
  ghost predicate Sorted(fs: seq<Field>, s: seq<Component>)
  {
    forall i, j :: 0 <= i < j < |s| ==> !Before(fs, s[j], s[i])
  }

  /** The records of `s` whose keys are `t`, in their order in `s`. */
  function Class(fs: seq<Field>, s: seq<Component>, t: seq<seq<Chunk>>): seq<Component>
  {
    if s == [] then []
    else Class(fs, s[..|s| - 1], t) + (if Keys(fs, s[|s| - 1]) == t then [s[|s| - 1]] else [])
  }

  /** Inserts `x` after every record it does not sort before. */
  function Insert(fs: seq<Field>, s: seq<Component>, x: Component): (r: seq<Component>)
    ensures |r| == |s| + 1
  {
    if s == [] then [x]
    else if Before(fs, x, s[|s| - 1]) then Insert(fs, s[..|s| - 1], x) + [s[|s| - 1]]
    else s + [x]
  }

  /** A stable sort by the fields `fs`: `sorted(s, key=...)` with the tuple of
      the fields' keys. */
  function SortKeys(fs: seq<Field>, s: seq<Component>): (r: seq<Component>)
    ensures |r| == |s|
  {
    if s == [] then [] else Insert(fs, SortKeys(fs, s[..|s| - 1]), s[|s| - 1])
  }

  lemma {:induction false} InsertMultiset(fs: seq<Field>, s: seq<Component>, x: Component)
    ensures multiset(Insert(fs, s, x)) == multiset(s) + multiset{x}
  {
    if s != [] && Before(fs, x, s[|s| - 1]) {
      InsertMultiset(fs, s[..|s| - 1], x);
      assert s == s[..|s| - 1] + [s[|s| - 1]];
    }
  }

  lemma {:induction false} InsertSorted(fs: seq<Field>, s: seq<Component>, x: Component)
    requires Sorted(fs, s)
    ensures Sorted(fs, Insert(fs, s, x))
  {
    if s == [] {
    } else if Before(fs, x, s[|s| - 1]) {
      var init, last := s[..|s| - 1], s[|s| - 1];
      InsertSorted(fs, init, x);
      InsertBelow(fs, init, x, last);
      AppendSorted(fs, Insert(fs, init, x), last);
    } else {
      var last := s[|s| - 1];
      forall i | 0 <= i < |s| ensures !Before(fs, x, s[i]) {
        if i < |s| - 1 {
          NotBeforeTransitive(fs, s[i], last, x);
        }
      }
      AppendSorted(fs, s, x);
    }
  }

  /** When `x` and every record of sorted `s + [last]` but `last` come before
      `last`, so does every record of `Insert(fs, s, x)`. */
  lemma InsertBelow(fs: seq<Field>, s: seq<Component>, x: Component, last: Component)
    requires Sorted(fs, s + [last]) && Before(fs, x, last)
    ensures forall i :: 0 <= i < |Insert(fs, s, x)| ==> !Before(fs, last, Insert(fs, s, x)[i])
  {
    InsertMultiset(fs, s, x);
    var r := Insert(fs, s, x);
    forall i | 0 <= i < |r| ensures !Before(fs, last, r[i]) {
      assert r[i] in multiset(r);
      if r[i] == x {
        if Before(fs, last, x) {
          KeysLessTransitive(Keys(fs, x), Keys(fs, last), Keys(fs, x));
          KeysLessIrreflexive(Keys(fs, x));
          assert false;
        }
      } else {
        assert r[i] in s;
        var k :| 0 <= k < |s| && s[k] == r[i];
        assert (s + [last])[k] == s[k] && (s + [last])[|s|] == last;
      }
    }
  }

  lemma AppendSorted(fs: seq<Field>, s: seq<Component>, y: Component)
    requires Sorted(fs, s) && forall i :: 0 <= i < |s| ==> !Before(fs, y, s[i])
    ensures Sorted(fs, s + [y])
  {
  }

  /** A record that sorts before `last` never shares its key, so the two
      may swap places without changing any key class. */
  lemma SwapLast(fs: seq<Field>, r: seq<Component>, c0: seq<Component>, x: Component, last: Component, t: seq<seq<Chunk>>)
    requires Class(fs, r, t) == c0 + (if Keys(fs, x) == t then [x] else [])
    requires Before(fs, x, last)
    ensures Class(fs, r + [last], t)
      == c0 + (if Keys(fs, last) == t then [last] else []) + (if Keys(fs, x) == t then [x] else [])
  {
    ClassSnoc(fs, r, last, t);
    KeysLessIrreflexive(t);
    SwapEmpty(c0, if Keys(fs, x) == t then [x] else [], if Keys(fs, last) == t then [last] else []);
  }

  lemma {:induction false} InsertClass(fs: seq<Field>, s: seq<Component>, x: Component, t: seq<seq<Chunk>>)
    ensures Class(fs, Insert(fs, s, x), t) == Class(fs, s, t) + (if Keys(fs, x) == t then [x] else [])
  {
    if s == [] {
      assert Class(fs, [x], t) == Class(fs, [], t) + (if Keys(fs, x) == t then [x] else []) by {
        assert [x][..0] == [];
      }
    } else if Before(fs, x, s[|s| - 1]) {
      var init, last := s[..|s| - 1], s[|s| - 1];
      InsertClass(fs, init, x, t);
      var r := Insert(fs, init, x);
      assert Insert(fs, s, x) == r + [last];
      SwapLast(fs, r, Class(fs, init, t), x, last, t);
    } else {
      ClassSnoc(fs, s, x, t);
    }
  }

  lemma SortKeysProperties(fs: seq<Field>, s: seq<Component>)
    ensures Sorted(fs, SortKeys(fs, s))
    ensures multiset(SortKeys(fs, s)) == multiset(s)
    ensures forall t :: Class(fs, SortKeys(fs, s), t) == Class(fs, s, t)
  {
    SortKeysSorted(fs, s);
    SortKeysMultiset(fs, s);
    forall t ensures Class(fs, SortKeys(fs, s), t) == Class(fs, s, t) {
      SortKeysClass(fs, s, t);
    }
  }

  lemma {:induction false} SortKeysSorted(fs: seq<Field>, s: seq<Component>)
    ensures Sorted(fs, SortKeys(fs, s))
  {
    if s != [] {
      SortKeysSorted(fs, s[..|s| - 1]);
      InsertSorted(fs, SortKeys(fs, s[..|s| - 1]), s[|s| - 1]);
    }
  }

  lemma {:induction false} SortKeysMultiset(fs: seq<Field>, s: seq<Component>)
    ensures multiset(SortKeys(fs, s)) == multiset(s)
  {
    if s != [] {
      var init := s[..|s| - 1];
      SortKeysMultiset(fs, init);
      InsertMultiset(fs, SortKeys(fs, init), s[|s| - 1]);
      DropLastSnoc(s);
    }
  }

  lemma {:induction false} SortKeysClass(fs: seq<Field>, s: seq<Component>, t: seq<seq<Chunk>>)
    ensures Class(fs, SortKeys(fs, s), t) == Class(fs, s, t)
  {
    if s != [] {
      SortKeysClass(fs, s[..|s| - 1], t);
      InsertClass(fs, SortKeys(fs, s[..|s| - 1]), s[|s| - 1], t);
    }
  }

  // ---------------------------------------------------------------------
  // A sorted order that keeps each class in place is unique

  lemma {:induction false} ClassMembers(fs: seq<Field>, s: seq<Component>, t: seq<seq<Chunk>>)
    ensures forall c :: c in Class(fs, s, t) <==> c in s && Keys(fs, c) == t
  {
    if s != [] {
      ClassMembers(fs, s[..|s| - 1], t);
      assert s == s[..|s| - 1] + [s[|s| - 1]];
    }
  }

  /** The last record of a sorted sequence sorts before none of its records. */
  lemma LastNotBefore(fs: seq<Field>, s: seq<Component>, c: Component)
    requires Sorted(fs, s) && c in s
    ensures !Before(fs, s[|s| - 1], c)
  {
    var k :| 0 <= k < |s| && s[k] == c;
    if k == |s| - 1 {
      KeysLessIrreflexive(Keys(fs, c));
    }
  }

  lemma NoRecordNoClass(fs: seq<Field>, a: seq<Component>, b: seq<Component>)
    requires a == [] && b != []
    ensures exists t :: Class(fs, a, t) != Class(fs, b, t)
  {
    var y := b[|b| - 1];
    ClassMembers(fs, b, Keys(fs, y));
    assert y in Class(fs, b, Keys(fs, y));
  }

  /** Two sorted orders that keep every class in the same order are the same order. */
  lemma {:induction false} SortedUnique(fs: seq<Field>, a: seq<Component>, b: seq<Component>)
    requires Sorted(fs, a) && Sorted(fs, b)
    requires forall t :: Class(fs, a, t) == Class(fs, b, t)
    ensures a == b
    decreases |a| + |b|
  {
    if a == [] && b == [] {
    } else if a == [] {
      NoRecordNoClass(fs, a, b);
      assert false;
    } else if b == [] {
      NoRecordNoClass(fs, b, a);
      assert false;
    } else {
      var ia, ib := a[..|a| - 1], b[..|b| - 1];
      SameLastKey(fs, a, b);
      assert a == ia + [a[|a| - 1]] && b == ib + [b[|b| - 1]];
      DropLast(fs, ia, a[|a| - 1], ib, b[|b| - 1]);
      SortedUnique(fs, ia, ib);
      assert a == ia + [a[|a| - 1]] && b == ib + [b[|b| - 1]];
    }
  }
  lemma SameLastKey(fs: seq<Field>, a: seq<Component>, b: seq<Component>)
    requires a != [] && b != [] && Sorted(fs, a) && Sorted(fs, b)
    requires forall t :: Class(fs, a, t) == Class(fs, b, t)
    ensures Keys(fs, a[|a| - 1]) == Keys(fs, b[|b| - 1])
  {
    var x, y := a[|a| - 1], b[|b| - 1];
    ClassMembers(fs, a, Keys(fs, x));
    ClassMembers(fs, b, Keys(fs, x));
    ClassMembers(fs, a, Keys(fs, y));
    ClassMembers(fs, b, Keys(fs, y));
    assert x in Class(fs, a, Keys(fs, x)) && y in Class(fs, b, Keys(fs, y));
    LastNotBefore(fs, b, x);
    LastNotBefore(fs, a, y);
    KeysLessTotal(Keys(fs, x), Keys(fs, y));
  }

  lemma DropLast(fs: seq<Field>, ia: seq<Component>, x: Component, ib: seq<Component>, y: Component)
    requires Keys(fs, x) == Keys(fs, y)
    requires forall t :: Class(fs, ia + [x], t) == Class(fs, ib + [y], t)
    ensures x == y
    ensures forall u :: Class(fs, ia, u) == Class(fs, ib, u)
  {
    var a, b := ia + [x], ib + [y];
    assert a[..|a| - 1] == ia && b[..|b| - 1] == ib;
    var t := Keys(fs, x);
    assert Class(fs, a, t) == Class(fs, ia, t) + [x];
    assert Class(fs, b, t) == Class(fs, ib, t) + [y];
    assert Class(fs, a, t)[|Class(fs, a, t)| - 1] == x;
    forall u ensures Class(fs, ia, u) == Class(fs, ib, u) {
      if u == t {
        assert Class(fs, a, t)[..|Class(fs, a, t)| - 1] == Class(fs, ia, t);
        assert Class(fs, b, t)[..|Class(fs, b, t)| - 1] == Class(fs, ib, t);
      } else {
        assert Class(fs, a, u) == Class(fs, ia, u);
        assert Class(fs, b, u) == Class(fs, ib, u);
      }
    }
  }
  // ---------------------------------------------------------------------
  // One pass per field, the last field first

  /** What the program does: a stable sort by `fs[0]` of the records already
      sorted by the fields after it. */
  function MultiPass(fs: seq<Field>, s: seq<Component>): (r: seq<Component>)
    ensures |r| == |s|
  {
    if fs == [] then s else SortKeys([fs[0]], MultiPass(fs[1..], s))
  }

  lemma KeysCons(fs: seq<Field>, c: Component)
    requires fs != []
    ensures Keys([fs[0]], c) == [KeyOf(fs[0], c)]
    ensures Keys(fs, c) == Keys([fs[0]], c) + Keys(fs[1..], c)
  {
    assert [fs[0]][1..] == [];
  }

  /** Records of one class keep their relative order in the class. */
  lemma {:induction false} ClassPositions(fs: seq<Field>, s: seq<Component>, t: seq<seq<Chunk>>, i: nat, j: nat)
    requires i < j < |s| && Keys(fs, s[i]) == t && Keys(fs, s[j]) == t
    ensures exists p, q :: 0 <= p < q < |Class(fs, s, t)| && Class(fs, s, t)[p] == s[i] && Class(fs, s, t)[q] == s[j]
  {
    var init := s[..|s| - 1];
    var ci := Class(fs, init, t);
    if j == |s| - 1 {
      ClassMembers(fs, init, t);
      assert s[i] == init[i];
      assert s[i] in ci;
      var p :| 0 <= p < |ci| && ci[p] == s[i];
      assert Class(fs, s, t)[p] == s[i] && Class(fs, s, t)[|ci|] == s[j];
    } else {
      ClassPositions(fs, init, t, i, j);
      var p, q :| 0 <= p < q < |ci| && ci[p] == init[i] && ci[q] == init[j];
      assert Class(fs, s, t)[p] == s[i] && Class(fs, s, t)[q] == s[j];
    }
  }

  /** A class of a sorted sequence is sorted. */
  lemma {:induction false} ClassSorted(fs: seq<Field>, gs: seq<Field>, s: seq<Component>, t: seq<seq<Chunk>>)
    requires Sorted(gs, s)
    ensures Sorted(gs, Class(fs, s, t))
  {
    if s != [] {
      var init, last := s[..|s| - 1], s[|s| - 1];
      ClassSorted(fs, gs, init, t);
      if Keys(fs, last) == t {
        var ci := Class(fs, init, t);
        ClassMembers(fs, init, t);
        forall i | 0 <= i < |ci| ensures !Before(gs, last, ci[i]) {
          assert ci[i] in ci;
          var k :| 0 <= k < |init| && init[k] == ci[i];
          assert s[k] == ci[i];
        }
        AppendSorted(gs, ci, last);
      }
    }
  }

  /** Sorting by the first field records already sorted by the others sorts
      them by all the fields. */
  lemma RadixStep(fs: seq<Field>, s: seq<Component>)
    requires fs != [] && Sorted(fs[1..], s)
    ensures Sorted(fs, SortKeys([fs[0]], s))
  {
    var f, gs := [fs[0]], fs[1..];
    var r := SortKeys(f, s);
    SortKeysProperties(f, s);
    forall i, j | 0 <= i < j < |r| ensures !Before(fs, r[j], r[i]) {
      KeysCons(fs, r[i]);
      KeysCons(fs, r[j]);
      var t := Keys(f, r[i]);
      if Keys(f, r[j]) == t {
        ClassPositions(f, r, t, i, j);
        ClassSorted(f, gs, s, t);
        var c := Class(f, r, t);
        var p, q :| 0 <= p < q < |c| && c[p] == r[i] && c[q] == r[j];
        assert !Before(gs, c[q], c[p]);
      }
    }
  }

  lemma {:induction false} ClassOfLength(fs: seq<Field>, s: seq<Component>, t: seq<seq<Chunk>>)
    requires |t| != |fs|
    ensures Class(fs, s, t) == []
  {
    if s != [] {
      ClassOfLength(fs, s[..|s| - 1], t);
    }
  }

  /** A record has the key tuple `[t0] + u` exactly when its first key is
      `t0` and the rest are `u`. */
  lemma KeysMatch(fs: seq<Field>, c: Component, t0: seq<Chunk>, u: seq<seq<Chunk>>)
    requires fs != []
    ensures Keys(fs, c) == [t0] + u <==> Keys([fs[0]], c) == [t0] && Keys(fs[1..], c) == u
  {
    KeysCons(fs, c);
    if Keys(fs, c) == [t0] + u {
      assert Keys(fs, c)[0] == t0 && Keys(fs, c)[1..] == u;
    }
  }

  /** The class of a key tuple is the class of its first key within the
      class of the rest. */
  lemma {:induction false} ClassNested(fs: seq<Field>, s: seq<Component>, t0: seq<Chunk>, u: seq<seq<Chunk>>)
    requires fs != []
    ensures Class(fs, s, [t0] + u) == Class([fs[0]], Class(fs[1..], s, u), [t0])
  {
    if s != [] {
      var init, last := s[..|s| - 1], s[|s| - 1];
      var f, gs := [fs[0]], fs[1..];
      var t := [t0] + u;
      ClassNested(fs, init, t0, u);
      KeysMatch(fs, last, t0, u);
      if Keys(gs, last) == u {
        assert Class(gs, s, u) == Class(gs, init, u) + [last];
        ClassSnoc(f, Class(gs, init, u), last, [t0]);
        if Keys(f, last) == [t0] {
          assert Class(fs, s, t) == Class(fs, init, t) + [last];
        } else {
          assert Class(fs, s, t) == Class(fs, init, t);
        }
      } else {
        assert Class(gs, s, u) == Class(gs, init, u);
        assert Class(fs, s, t) == Class(fs, init, t);
      }
    }
  }

  /** ... and the class of the rest within the class of its first key. */
  lemma {:induction false} ClassNestedOuter(fs: seq<Field>, s: seq<Component>, t0: seq<Chunk>, u: seq<seq<Chunk>>)
    requires fs != []
    ensures Class(fs, s, [t0] + u) == Class(fs[1..], Class([fs[0]], s, [t0]), u)
  {
    if s != [] {
      var init, last := s[..|s| - 1], s[|s| - 1];
      var f, gs := [fs[0]], fs[1..];
      var t := [t0] + u;
      ClassNestedOuter(fs, init, t0, u);
      KeysMatch(fs, last, t0, u);
      if Keys(f, last) == [t0] {
        assert Class(f, s, [t0]) == Class(f, init, [t0]) + [last];
        ClassSnoc(gs, Class(f, init, [t0]), last, u);
        if Keys(gs, last) == u {
          assert Class(fs, s, t) == Class(fs, init, t) + [last];
        } else {
          assert Class(fs, s, t) == Class(fs, init, t);
        }
      } else {
        assert Class(f, s, [t0]) == Class(f, init, [t0]);
        assert Class(fs, s, t) == Class(fs, init, t);
      }
    }
  }

  lemma ClassSnoc(fs: seq<Field>, s: seq<Component>, x: Component, t: seq<seq<Chunk>>)
    ensures Class(fs, s + [x], t) == Class(fs, s, t) + (if Keys(fs, x) == t then [x] else [])
  {
    assert (s + [x])[..|s|] == s;
  }

  /** The passes, last field first, sort the records by all the fields and
      keep the records of each key tuple in their original order. */
  lemma {:induction false} MultiPassProperties(fs: seq<Field>, s: seq<Component>)
    ensures Sorted(fs, MultiPass(fs, s))
    ensures forall t :: Class(fs, MultiPass(fs, s), t) == Class(fs, s, t)
  {
    if fs != [] {
      var r' := MultiPass(fs[1..], s);
      MultiPassProperties(fs[1..], s);
      RadixStep(fs, r');
      forall t ensures Class(fs, MultiPass(fs, s), t) == Class(fs, s, t) {
        PassKeepsClass(fs, s, r', t);
      }
    }
  }

  lemma PassKeepsClass(fs: seq<Field>, s: seq<Component>, r': seq<Component>, t: seq<seq<Chunk>>)
    requires fs != [] && forall u :: Class(fs[1..], r', u) == Class(fs[1..], s, u)
    ensures Class(fs, SortKeys([fs[0]], r'), t) == Class(fs, s, t)
  {
    var r := SortKeys([fs[0]], r');
    if |t| != |fs| {
      ClassOfLength(fs, r, t);
      ClassOfLength(fs, s, t);
    } else {
      var t0, u := t[0], t[1..];
      assert t == [t0] + u;
      SortKeysClass([fs[0]], r', [t0]);
      assert Class(fs[1..], r', u) == Class(fs[1..], s, u);
      ClassNestedOuter(fs, r, t0, u);
      ClassNestedOuter(fs, r', t0, u);
      ClassNested(fs, r', t0, u);
      ClassNested(fs, s, t0, u);
    }
  }

  /** The passes amount to one stable sort by the tuple of the fields' keys. */
  lemma MultiPassIsOneSort(fs: seq<Field>, s: seq<Component>)
    ensures MultiPass(fs, s) == SortKeys(fs, s)
    ensures multiset(MultiPass(fs, s)) == multiset(s)
  {
    MultiPassProperties(fs, s);
    SortKeysProperties(fs, s);
    SortedUnique(fs, MultiPass(fs, s), SortKeys(fs, s));
  }
  /** Sorting records already in order changes nothing. */
  lemma AlreadySorted(fs: seq<Field>, s: seq<Component>)
    requires Sorted(fs, s)
    ensures MultiPass(fs, s) == s
  {
    MultiPassProperties(fs, s);
    SortedUnique(fs, MultiPass(fs, s), s);
  }

  // ---------------------------------------------------------------------
  // The sort stage

  /** `-s` names a field that is not one of the eight. */
  datatype SortError = UnknownField(name: string)

  /** The sort order: `-s` when given, otherwise "ref,value" for a cart and
      "schematic,ref" for a listing. */
  function SortOrder(sortArg: Option<string>, cart: bool): string
  {
    match sortArg
    case Some(order) => order
    case None => if cart then "ref,value" else "schematic,ref"
  }

  /** The fields the names stand for, or the first name that is not a field. */
  function FieldsNamed(names: seq<string>): Result<seq<Field>, string>
  {
    if names == [] then Ok([])
    else
      match FieldsNamed(names[..|names| - 1])
      case Err(n) => Err(n)
      case Ok(fs) =>
        match FieldNamed(names[|names| - 1])
        case None => Err(names[|names| - 1])
        case Some(f) => Ok(fs + [f])
  }

  /** The records after the sort stage, or the error it stops with. */
  function SortStage(cs: seq<Component>, names: seq<string>): Result<seq<Component>, SortError>
  {
    match FieldsNamed(names)
    case Err(n) => Err(UnknownField(n))
    case Ok(fs) => Ok(MultiPass(fs, cs))
  }

  method SortComponents(cs: seq<Component>, sortArg: Option<string>, cart: bool) returns (r: Result<seq<Component>, SortError>)
    ensures r == SortStage(cs, Split(SortOrder(sortArg, cart), ','))
  {
    var names := Split(SortOrder(sortArg, cart), ',');
    var fs: seq<Field> := [];
    for i := 0 to |names|
      invariant FieldsNamed(names[..i]) == Ok(fs)
    {
      assert names[..i + 1][..i] == names[..i];
      var f := FieldNamed(names[i]);
      if f.None? {
        NamesErrorPersists(names, i + 1);
        return Err(UnknownField(names[i]));
      }
      fs := fs + [f.value];
    }
    assert names[..|names|] == names;
    var s := cs;
    var k := |fs|;
    while k > 0
      invariant 0 <= k <= |fs|
      invariant s == MultiPass(fs[k..], cs)
    {
      k := k - 1;
      assert fs[k..][1..] == fs[k + 1..];
      s := SortKeys([fs[k]], s);
    }
    assert fs[0..] == fs;
    r := Ok(s);
  }

  lemma {:induction false} NamesErrorPersists(names: seq<string>, k: nat)
    requires k <= |names| && FieldsNamed(names[..k]).Err?
    ensures FieldsNamed(names) == FieldsNamed(names[..k])
  {
    if k < |names| {
      var init := names[..|names| - 1];
      assert init[..k] == names[..k];
      NamesErrorPersists(init, k);
    } else {
      assert names[..k] == names;
    }
  }

  /** The names are accepted exactly when every one is a field name, and
      then stand for their fields one by one. */
  lemma {:induction false} FieldsNamedOk(names: seq<string>)
    ensures FieldsNamed(names).Ok? <==> forall i :: 0 <= i < |names| ==> FieldNamed(names[i]).Some?
    ensures FieldsNamed(names).Ok? ==>
      |FieldsNamed(names).value| == |names| &&
      forall i :: 0 <= i < |names| ==> Some(FieldsNamed(names).value[i]) == FieldNamed(names[i])
  {
    if names != [] {
      var init := names[..|names| - 1];
      FieldsNamedOk(init);
      assert forall i :: 0 <= i < |init| ==> init[i] == names[i];
    }
  }

  /** Otherwise the error names the first name that is not a field. */
  /** `names[i]` is the first name in the list that is not a field name. */
  ghost predicate FirstUnknown(names: seq<string>, i: int)
  {
    && 0 <= i < |names| && FieldNamed(names[i]).None?
    && forall j :: 0 <= j < i ==> FieldNamed(names[j]).Some?
  }

  lemma {:induction false} FieldsNamedErr(names: seq<string>)
    ensures FieldsNamed(names).Err? ==>
      exists i :: FirstUnknown(names, i) && names[i] == FieldsNamed(names).error
  {
    if names != [] {
      var init := names[..|names| - 1];
      FieldsNamedErr(init);
      if FieldsNamed(init).Err? {
        var i :| FirstUnknown(init, i) && init[i] == FieldsNamed(init).error;
        UnknownInPrefix(names, i);
      } else if FieldsNamed(names).Err? {
        FieldsNamedOk(init);
        UnknownAtEnd(names, init);
      }
    }
  }

  lemma UnknownInPrefix(names: seq<string>, i: int)
    requires names != [] && FirstUnknown(names[..|names| - 1], i)
    ensures FirstUnknown(names, i) && names[i] == names[..|names| - 1][i]
  {
    var init := names[..|names| - 1];
    assert forall j :: 0 <= j <= i ==> names[j] == init[j];
  }

  lemma UnknownAtEnd(names: seq<string>, init: seq<string>)
    requires names != [] && init == names[..|names| - 1] && FieldNamed(names[|names| - 1]).None?
    requires forall j :: 0 <= j < |init| ==> FieldNamed(init[j]).Some?
    ensures FirstUnknown(names, |names| - 1)
  {
    assert forall j :: 0 <= j < |init| ==> names[j] == init[j];
  }


  /** The sort stage reorders the records and nothing else, and its result
      is the one stable sort by the tuple of the named fields' keys. */
  lemma SortStageMeaning(cs: seq<Component>, names: seq<string>)
    ensures SortStage(cs, names).Ok? ==>
      var fs := FieldsNamed(names).value;
      && SortStage(cs, names).value == SortKeys(fs, cs)
      && multiset(SortStage(cs, names).value) == multiset(cs)
      && Sorted(fs, SortStage(cs, names).value)
  {
    if SortStage(cs, names).Ok? {
      var fs := FieldsNamed(names).value;
      MultiPassIsOneSort(fs, cs);
      SortKeysProperties(fs, cs);
    }
  }

  lemma TwoNames(a: string, b: string)
    requires ',' !in a && ',' !in b
    ensures Split(a + "," + b, ',') == [a, b]
  {
    assert a + "," + b == a + [','] + b;
    SplitAt(a, ',', b);
    SplitFree(a, ',');
    SplitFree(b, ',');
  }

  lemma TwoFields(a: string, b: string, fa: Field, fb: Field)
    requires FieldNamed(a) == Some(fa) && FieldNamed(b) == Some(fb)
    ensures FieldsNamed([a, b]) == Ok([fa, fb])
  {
    assert [a, b][..1] == [a] && [a][..0] == [];
    assert FieldsNamed([]) == Ok([]);
    assert [] + [fa] == [fa];
    assert FieldsNamed([a]) == Ok([fa]);
    assert [fa] + [fb] == [fa, fb];
  }

  /** Without `-s`, a listing is sorted by schematic then reference. */
  lemma DefaultListingOrder()
    ensures FieldsNamed(Split(SortOrder(None, false), ',')) == Ok([Schematic, Ref])
  {
    assert "schematic,ref" == "schematic" + "," + "ref";
    TwoNames("schematic", "ref");
    assert FieldNamed("schematic") == Some(Schematic);
    assert FieldNamed("ref") == Some(Ref);
    TwoFields("schematic", "ref", Schematic, Ref);
  }

  /** Without `-s`, a cart is sorted by reference then value. */
  lemma DefaultCartOrder()
    ensures FieldsNamed(Split(SortOrder(None, true), ',')) == Ok([Ref, Value])
  {
    assert "ref,value" == "ref" + "," + "value";
    TwoNames("ref", "value");
    assert FieldNamed("ref") == Some(Ref);
    assert FieldNamed("value") == Some(Value);
    TwoFields("ref", "value", Ref, Value);
  }

  lemma ByReference(x: Component, y: Component)
    requires KeyLess(NaturalKey(x.ref), NaturalKey(y.ref))
    ensures Before([Ref], x, y)
  {
    assert [Ref][1..] == [];
  }

  /** Sorting by reference puts R1, R2, R10 in that order. */
  lemma SortByReference(c1: Component, c2: Component, c10: Component)
    requires c1.ref == "R1" && c2.ref == "R2" && c10.ref == "R10"
    ensures MultiPass([Ref], [c10, c2, c1]) == [c1, c2, c10]
  {
    DesignatorOrder();
    KeyLessTransitive(NaturalKey("R1"), NaturalKey("R2"), NaturalKey("R10"));
    ByReference(c2, c10);
    ByReference(c1, c10);
    ByReference(c1, c2);
    var s := [c10, c2, c1];
    assert s[..2] == [c10, c2] && [c10, c2][..1] == [c10] && [c10][..0] == [];
    assert SortKeys([Ref], [c10]) == [c10];
    assert Insert([Ref], [c10], c2) == [c2, c10];
    assert SortKeys([Ref], [c10, c2]) == [c2, c10];
    assert [c2, c10][..1] == [c2];
    assert Insert([Ref], [c2], c1) == [c1, c2];
    assert Insert([Ref], [c2, c10], c1) == [c1, c2, c10];
    assert [Ref][1..] == [];
  }
}
