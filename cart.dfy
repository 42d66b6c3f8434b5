/** The `--cart` grouping of kicad2bom.py: the records are grouped by
    supplier, in order of first appearance, and within a supplier by
    supplier reference; each group keeps the first record of each
    reference, with a `qty` that adds up the multipliers of all the records
    carrying that reference. */
module Cart {
  import opened Records

  /** A record of a cart: the record's fields, with `qty` in place of `multiplier`. */
  datatype CartLine = CartLine(
    schematic: string,
    name: string,
    ref: string,
    value: string,
    footprint: string,
    url: string,
    supplier: string,
    supplierRef: string,
    qty: int)

  /** `comp2 = comp.copy(); comp2["qty"] = qty; del comp2["multiplier"]` */
  function LineOf(c: Component, qty: int): CartLine
  {
    CartLine(c.schematic, c.name, c.ref, c.value, c.footprint, c.url, c.supplier, c.supplierRef, qty)
  }

  /** `[c["supplier_ref"] for c in lines]` */
  function RefsOf(lines: seq<CartLine>): (r: seq<string>)
    ensures |r| == |lines|
    ensures forall i :: 0 <= i < |lines| ==> r[i] == lines[i].supplierRef
  {
    if lines == [] then [] else RefsOf(lines[..|lines| - 1]) + [lines[|lines| - 1].supplierRef]
  }

  /** `xs.index(x)`: the first position of `x`. */
  function IndexOf(xs: seq<string>, x: string): (k: nat)
    requires x in xs
    ensures k < |xs| && xs[k] == x && x !in xs[..k]
  {
    if xs[0] == x then 0 else 1 + IndexOf(xs[1..], x)
  }

  /** The group of one supplier after one more record of that supplier. */
  function Merge(group: seq<CartLine>, c: Component): (r: seq<CartLine>)
    ensures |r| == |group| + (if c.supplierRef in RefsOf(group) then 0 else 1)
  {
    var refs := RefsOf(group);
    if c.supplierRef !in refs then group + [LineOf(c, c.multiplier)]
    else
      var k := IndexOf(refs, c.supplierRef);
      group[k := AddQty(group[k], c.multiplier)]
  }

  /** `line["qty"] += m` */
  function AddQty(line: CartLine, m: int): CartLine
  {
    line.(qty := line.qty + m)
  }

  /** The groups after one more record. */
  function AddRecord(groups: map<string, seq<CartLine>>, c: Component): map<string, seq<CartLine>>
  {
    var group := if c.supplier in groups then groups[c.supplier] else [];
    groups[c.supplier := Merge(group, c)]
  }

  /** The `suppliers` dictionary after the loop. */
  function CartOf(cs: seq<Component>): (r: map<string, seq<CartLine>>)
    ensures forall s :: s in r ==> r[s] != []
  {
    if cs == [] then map[] else AddRecord(CartOf(cs[..|cs| - 1]), cs[|cs| - 1])
  }

  /** The suppliers, each once, in order of first appearance: the key order
      of `suppliers`, which is the order the CSV files are written in. */
  function Suppliers(cs: seq<Component>): seq<string>
  {
    if cs == [] then []
    else
      var init := Suppliers(cs[..|cs| - 1]);
      if cs[|cs| - 1].supplier in init then init else init + [cs[|cs| - 1].supplier]
  }

  method BuildCart(cs: seq<Component>) returns (order: seq<string>, groups: map<string, seq<CartLine>>)
    ensures order == Suppliers(cs)
    ensures groups == CartOf(cs)
  {
    order := [];
    groups := map[];
    for i := 0 to |cs|
      invariant order == Suppliers(cs[..i])
      invariant groups == CartOf(cs[..i])
    {
      CartStep(cs, i);
      CartKeys(cs[..i]);
      var c := cs[i];
      var supplier := c.supplier;
      var group: seq<CartLine> := [];
      if supplier in groups {
        group := groups[supplier];
      } else {
        order := order + [supplier];
      }
      ghost var before := group;
      var ref := c.supplierRef;
      var listRefs := RefsOf(group);
      if ref !in listRefs {
        group := group + [LineOf(c, c.multiplier)];
        assert group == Merge(before, c);
      } else {
        var k := IndexOf(listRefs, ref);
        group := group[k := AddQty(group[k], c.multiplier)];
        assert group == Merge(before, c);
      }
      groups := groups[supplier := group];
      assert order == Suppliers(cs[..i + 1]);
    }
    assert cs[..|cs|] == cs;
  }

  /** The cart has a group for exactly the suppliers of the records. */
  lemma {:induction false} CartKeys(cs: seq<Component>)
    ensures forall s :: s in CartOf(cs) <==> s in Suppliers(cs)
  {
    if cs != [] {
      CartKeys(cs[..|cs| - 1]);
    }
  }

  lemma CartStep(cs: seq<Component>, i: nat)
    requires i < |cs|
    ensures CartOf(cs[..i + 1]) == AddRecord(CartOf(cs[..i]), cs[i])
    ensures Suppliers(cs[..i + 1]) ==
      if cs[i].supplier in Suppliers(cs[..i]) then Suppliers(cs[..i]) else Suppliers(cs[..i]) + [cs[i].supplier]
  {
    assert cs[..i + 1][..i] == cs[..i];
  }

  // ---------------------------------------------------------------------
  // An independent description of the cart

  /** The supplier references of `s`'s records, each once, in order of first appearance. */
  function RefsOfSupplier(cs: seq<Component>, s: string): seq<string>
  {
    if cs == [] then []
    else
      var init := RefsOfSupplier(cs[..|cs| - 1], s);
      var c := cs[|cs| - 1];
      if c.supplier == s && c.supplierRef !in init then init + [c.supplierRef] else init
  }

  /** The sum of the multipliers of the records of supplier `s` with reference `r`. */
  function Total(cs: seq<Component>, s: string, r: string): int
  {
    if cs == [] then 0
    else
      var c := cs[|cs| - 1];
      Total(cs[..|cs| - 1], s, r) + (if c.supplier == s && c.supplierRef == r then c.multiplier else 0)
  }

  /** The first record of supplier `s` with reference `r`. */
  function First(cs: seq<Component>, s: string, r: string): Component
    requires r in RefsOfSupplier(cs, s)
  {
    var init := cs[..|cs| - 1];
    if r in RefsOfSupplier(init, s) then First(init, s, r) else cs[|cs| - 1]
  }

  /** One line per reference of `s`: the reference's first record, with the
      total of its multipliers. */
  function Entries(cs: seq<Component>, s: string): seq<CartLine>
  {
    var refs := RefsOfSupplier(cs, s);
    seq(|refs|, i requires 0 <= i < |refs| => LineOf(First(cs, s, refs[i]), Total(cs, s, refs[i])))
  }
  lemma {:induction false} FirstMatches(cs: seq<Component>, s: string, r: string)
    requires r in RefsOfSupplier(cs, s)
    ensures First(cs, s, r).supplier == s && First(cs, s, r).supplierRef == r
  {
    if r in RefsOfSupplier(cs[..|cs| - 1], s) {
      FirstMatches(cs[..|cs| - 1], s, r);
    }
  }

  /** A reference no record of `s` carries adds up to nothing. */
  lemma {:induction false} TotalAbsent(cs: seq<Component>, s: string, r: string)
    requires r !in RefsOfSupplier(cs, s)
    ensures Total(cs, s, r) == 0
  {
    if cs != [] {
      TotalAbsent(cs[..|cs| - 1], s, r);
    }
  }

  lemma {:induction false} SupplierPresent(cs: seq<Component>, s: string)
    requires RefsOfSupplier(cs, s) != []
    ensures s in Suppliers(cs)
  {
    var init := cs[..|cs| - 1];
    if RefsOfSupplier(init, s) != [] {
      SupplierPresent(init, s);
    }
  }

  lemma EntriesRefs(cs: seq<Component>, s: string)
    ensures RefsOf(Entries(cs, s)) == RefsOfSupplier(cs, s)
  {
    var refs := RefsOfSupplier(cs, s);
    forall i | 0 <= i < |refs| ensures RefsOf(Entries(cs, s))[i] == refs[i] {
      FirstMatches(cs, s, refs[i]);
    }
  }

  /** Records of other suppliers leave a supplier's entries alone. */
  lemma EntriesOther(cs: seq<Component>, s: string)
    requires cs != [] && cs[|cs| - 1].supplier != s
    ensures Entries(cs, s) == Entries(cs[..|cs| - 1], s)
  {
    var init := cs[..|cs| - 1];
    var refs := RefsOfSupplier(init, s);
    assert RefsOfSupplier(cs, s) == refs;
    forall i | 0 <= i < |refs| ensures Entries(cs, s)[i] == Entries(init, s)[i] {
      assert First(cs, s, refs[i]) == First(init, s, refs[i]);
    }
  }

  /** A record of a reference not yet seen adds a line with its own multiplier. */
  lemma EntriesNewRef(cs: seq<Component>)
    requires cs != []
    requires var c := cs[|cs| - 1]; c.supplierRef !in RefsOfSupplier(cs[..|cs| - 1], c.supplier)
    ensures var c := cs[|cs| - 1];
      Entries(cs, c.supplier) == Entries(cs[..|cs| - 1], c.supplier) + [LineOf(c, c.multiplier)]
  {
    var init, c := cs[..|cs| - 1], cs[|cs| - 1];
    var s := c.supplier;
    var refs := RefsOfSupplier(init, s);
    TotalAbsent(init, s, c.supplierRef);
    assert RefsOfSupplier(cs, s) == refs + [c.supplierRef];
    forall i | 0 <= i < |refs| ensures Entries(cs, s)[i] == Entries(init, s)[i] {
      assert First(cs, s, refs[i]) == First(init, s, refs[i]);
      assert refs[i] != c.supplierRef;
    }
  }

  /** A record of a reference already seen adds its multiplier to that line. */
  lemma EntriesSeenRef(cs: seq<Component>)
    requires cs != []
    requires var c := cs[|cs| - 1]; c.supplierRef in RefsOfSupplier(cs[..|cs| - 1], c.supplier)
    ensures var c := cs[|cs| - 1];
      var old_ := Entries(cs[..|cs| - 1], c.supplier);
      var k := IndexOf(RefsOfSupplier(cs[..|cs| - 1], c.supplier), c.supplierRef);
      Entries(cs, c.supplier) == old_[k := AddQty(old_[k], c.multiplier)]
  {
    var init, c := cs[..|cs| - 1], cs[|cs| - 1];
    var s := c.supplier;
    var refs := RefsOfSupplier(init, s);
    var k := IndexOf(refs, c.supplierRef);
    var before := Entries(init, s);
    assert RefsOfSupplier(cs, s) == refs;
    RefsDistinct(init, s);
    forall i | 0 <= i < |refs| ensures Entries(cs, s)[i] == before[k := AddQty(before[k], c.multiplier)][i] {
      assert First(cs, s, refs[i]) == First(init, s, refs[i]);
      if i != k {
        assert refs[i] != c.supplierRef;
      }
    }
  }

  /** Each reference appears once. */
  lemma {:induction false} RefsDistinct(cs: seq<Component>, s: string)
    ensures forall i, j :: 0 <= i < j < |RefsOfSupplier(cs, s)| ==> RefsOfSupplier(cs, s)[i] != RefsOfSupplier(cs, s)[j]
  {
    if cs != [] {
      RefsDistinct(cs[..|cs| - 1], s);
    }
  }

  /** One more record changes its supplier's entries the way the loop changes its group. */
  lemma EntriesStep(cs: seq<Component>)
    requires cs != []
    ensures var c := cs[|cs| - 1];
      Entries(cs, c.supplier) == Merge(Entries(cs[..|cs| - 1], c.supplier), c)
  {
    var init, c := cs[..|cs| - 1], cs[|cs| - 1];
    EntriesRefs(init, c.supplier);
    if c.supplierRef in RefsOfSupplier(init, c.supplier) {
      EntriesSeenRef(cs);
    } else {
      EntriesNewRef(cs);
    }
  }

  /** The cart, described without the loop: one group per supplier, holding
      one line per supplier reference in order of first appearance, made of
      the first record with that reference and the total of the multipliers
      of all the records with it. */
  lemma {:induction false} CartIsEntries(cs: seq<Component>)
    ensures forall s :: s in CartOf(cs) ==> CartOf(cs)[s] == Entries(cs, s)
  {
    if cs != [] {
      var init, c := cs[..|cs| - 1], cs[|cs| - 1];
      CartIsEntries(init);
      CartKeys(init);
      forall s | s in CartOf(cs) ensures CartOf(cs)[s] == Entries(cs, s) {
        if s == c.supplier {
          EntriesStep(cs);
          if s !in CartOf(init) && RefsOfSupplier(init, s) != [] {
            SupplierPresent(init, s);
          }
        } else {
          EntriesOther(cs, s);
        }
      }
    }
  }
  // ---------------------------------------------------------------------
  // Quantities and suppliers

  /** The sum of the quantities of a group. */
  function Qty(lines: seq<CartLine>): int
  {
    if lines == [] then 0 else Qty(lines[..|lines| - 1]) + lines[|lines| - 1].qty
  }

  /** The sum of the multipliers of the records of supplier `s`. */
  function SupplierTotal(cs: seq<Component>, s: string): int
  {
    if cs == [] then 0
    else SupplierTotal(cs[..|cs| - 1], s) + (if cs[|cs| - 1].supplier == s then cs[|cs| - 1].multiplier else 0)
  }

  lemma {:induction false} QtyUpdate(g: seq<CartLine>, k: nat, m: int)
    requires k < |g|
    ensures Qty(g[k := AddQty(g[k], m)]) == Qty(g) + m
  {
    var g' := g[k := AddQty(g[k], m)];
    assert g'[..|g| - 1] == if k == |g| - 1 then g[..|g| - 1] else g[..|g| - 1][k := AddQty(g[k], m)];
    if k < |g| - 1 {
      QtyUpdate(g[..|g| - 1], k, m);
    }
  }

  lemma QtyMerge(g: seq<CartLine>, c: Component)
    ensures Qty(Merge(g, c)) == Qty(g) + c.multiplier
  {
    if c.supplierRef in RefsOf(g) {
      QtyUpdate(g, IndexOf(RefsOf(g), c.supplierRef), c.multiplier);
    } else {
      assert (g + [LineOf(c, c.multiplier)])[..|g|] == g;
    }
  }

  lemma {:induction false} SupplierTotalAbsent(cs: seq<Component>, s: string)
    requires s !in Suppliers(cs)
    ensures SupplierTotal(cs, s) == 0
  {
    if cs != [] {
      SupplierTotalAbsent(cs[..|cs| - 1], s);
    }
  }

  /** Nothing is lost or counted twice: the quantities of a supplier's
      group add up to the multipliers of all that supplier's records. */
  lemma {:induction false} CartQuantities(cs: seq<Component>)
    ensures forall s :: s in CartOf(cs) ==> Qty(CartOf(cs)[s]) == SupplierTotal(cs, s)
  {
    if cs != [] {
      var init, c := cs[..|cs| - 1], cs[|cs| - 1];
      CartQuantities(init);
      CartKeys(init);
      forall s | s in CartOf(cs) ensures Qty(CartOf(cs)[s]) == SupplierTotal(cs, s) {
        if s == c.supplier {
          var g := if s in CartOf(init) then CartOf(init)[s] else [];
          QtyMerge(g, c);
          if s !in CartOf(init) {
            SupplierTotalAbsent(init, s);
          }
        }
      }
    }
  }

  /** The supplier list names every supplier of the records, each once. */
  lemma {:induction false} SuppliersMeaning(cs: seq<Component>)
    ensures forall s :: s in Suppliers(cs) <==> exists i :: 0 <= i < |cs| && cs[i].supplier == s
    ensures forall i, j :: 0 <= i < j < |Suppliers(cs)| ==> Suppliers(cs)[i] != Suppliers(cs)[j]
  {
    if cs != [] {
      var init := cs[..|cs| - 1];
      SuppliersMeaning(init);
      forall s ensures s in Suppliers(cs) <==> exists i :: 0 <= i < |cs| && cs[i].supplier == s {
        if s in Suppliers(init) {
          var i :| 0 <= i < |init| && init[i].supplier == s;
          assert cs[i].supplier == s;
        }
        if exists i :: 0 <= i < |cs| && cs[i].supplier == s {
          var i :| 0 <= i < |cs| && cs[i].supplier == s;
          if i < |init| {
            assert init[i].supplier == s;
          }
        }
      }
    }
  }

  /** Two records with the same supplier reference, from files with
      multipliers 2 and 3, make one line of quantity 5. */
  lemma QuantitiesAdd(a: Component, b: Component)
    requires a.supplier == b.supplier && a.supplierRef == b.supplierRef
    requires a.multiplier == 2 && b.multiplier == 3
    ensures CartOf([a, b]) == map[a.supplier := [LineOf(a, 5)]]
  {
    assert [a, b][..1] == [a] && [a][..0] == [];
    var g := [LineOf(a, 2)];
    assert RefsOf([]) == [];
    assert Merge([], a) == [] + [LineOf(a, 2)] == g;
    assert CartOf([a]) == map[][a.supplier := g];
    assert RefsOf(g) == [a.supplierRef] by {
      assert g[..0] == [];
    }
    assert IndexOf(RefsOf(g), b.supplierRef) == 0;
    assert AddQty(g[0], 3) == LineOf(a, 5);
    assert Merge(g, b) == [LineOf(a, 5)];
    assert CartOf([a, b]) == CartOf([a])[a.supplier := [LineOf(a, 5)]];
  }
}
