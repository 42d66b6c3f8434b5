/** The filter stage of kicad2bom.py: which records reach the sort and the
    output, given the command-line filter options. */
module Filtering {
  import opened Wrappers
  import opened Strings
  import opened Records

  /** The filter options: `-u`, `-a`, and the comma-separated allow-lists
      `-N`, `-R`, `-V`, `-F`, `-S` and `-Z` (None when the option is absent). */
  datatype FilterOptions = FilterOptions(
    unspecified: bool,
    all: bool,
    name: Option<string>,
    ref: Option<string>,
    value: Option<string>,
    footprint: Option<string>,
    supplier: Option<string>,
    supplierRef: Option<string>)
  {
    /** The allow-list given for field `f`, if any. */
    function AllowList(f: Field): Option<string>
    {
      match f
      case Name => name
      case Ref => ref
      case Value => value
      case Footprint => footprint
      case Supplier => supplier
      case SupplierRef => supplierRef
      case _ => None
    }
  }

  /** The fields that have an allow-list option, in the order they are checked. */
  const ListedFields: seq<Field> := [Name, Ref, Value, Footprint, Supplier, SupplierRef]

  /** `v.lower() in list.lower().split(",")` */
  predicate InAllowList(v: string, list: string)
  {
    Lower(v) in Split(Lower(list), ',')
  }

  /** The record passes the allow-list of field `f`, or there is none. */
  predicate PassesList(opts: FilterOptions, c: Component, f: Field)
  {
    opts.AllowList(f).None? || InAllowList(Get(c, f), opts.AllowList(f).value)
  }

  /** The record passes the tests that do not depend on the allow-lists:
      its reference is not a power symbol's ("#..."), it has no URL when only
      unspecified records are wanted, and its URL is not a one-character
      placeholder unless all records are wanted. */
  predicate PassesFlags(opts: FilterOptions, c: Component)
  {
    && !StartsWith(c.ref, "#")
    && !(opts.unspecified && c.url != "")
    && !(!opts.all && |c.url| == 1)
  }

  predicate Keep(opts: FilterOptions, c: Component): (r: bool)
    ensures r <==> PassesFlags(opts, c) && forall k :: 0 <= k < |ListedFields| ==> PassesList(opts, c, ListedFields[k])
  {
    ListedFieldsCover(opts, c);
    PassesFlags(opts, c) && forall f :: PassesList(opts, c, f)
  }

  /** The records kept, in their original order. */
  function Selected(opts: FilterOptions, cs: seq<Component>): (r: seq<Component>)
    ensures |r| <= |cs|
  {
    if cs == [] then []
    else Selected(opts, cs[..|cs| - 1]) + (if Keep(opts, cs[|cs| - 1]) then [cs[|cs| - 1]] else [])
  }

  method FilterComponents(opts: FilterOptions, cs: seq<Component>) returns (kept: seq<Component>)
    ensures kept == Selected(opts, cs)
  {
    kept := [];
    for i := 0 to |cs|
      invariant kept == Selected(opts, cs[..i])
    {
      var c := cs[i];
      var keep := true;
      if StartsWith(c.ref, "#") {
        keep := false;
      }
      if opts.unspecified && c.url != "" {
        keep := false;
      }
      if !opts.all && |c.url| == 1 {
        keep := false;
      }
      for j := 0 to |ListedFields|
        invariant keep <==> PassesFlags(opts, c) && forall k :: 0 <= k < j ==> PassesList(opts, c, ListedFields[k])
      {
        var f := ListedFields[j];
        var list := opts.AllowList(f);
        if list.Some? {
          if !InAllowList(Get(c, f), list.value) {
            keep := false;
          }
        }
      }
      ListedFieldsCover(opts, c);
      SelectedStep(opts, cs, i);
      if keep {
        kept := kept + [c];
      }
    }
    assert cs[..|cs|] == cs;
  }

  /** One more record of the input is kept or dropped on its own. */
  lemma SelectedStep(opts: FilterOptions, cs: seq<Component>, i: nat)
    requires i < |cs|
    ensures Selected(opts, cs[..i + 1]) == Selected(opts, cs[..i]) + (if Keep(opts, cs[i]) then [cs[i]] else [])
  {
    assert cs[..i + 1][..i] == cs[..i];
  }

  /** Every field with an allow-list is one of the fields the loop checks. */
  lemma ListedFieldsCover(opts: FilterOptions, c: Component)
    ensures (forall k :: 0 <= k < |ListedFields| ==> PassesList(opts, c, ListedFields[k]))
      <==> forall f :: PassesList(opts, c, f)
  {
    if forall k :: 0 <= k < |ListedFields| ==> PassesList(opts, c, ListedFields[k]) {
      forall f ensures PassesList(opts, c, f) {
        if f != Schematic && f != Url {
          assert f in ListedFields;
        }
      }
    }
  }

  // ---------------------------------------------------------------------
  // What the filter keeps

  lemma {:induction false} SelectedAppend(opts: FilterOptions, a: seq<Component>, b: seq<Component>)
    ensures Selected(opts, a + b) == Selected(opts, a) + Selected(opts, b)
  {
    if b == [] {
      assert a + b == a;
    } else {
      SelectedAppend(opts, a, b[..|b| - 1]);
      assert (a + b)[..|a + b| - 1] == a + b[..|b| - 1];
    }
  }

  lemma {:induction false} SelectedIff(opts: FilterOptions, cs: seq<Component>)
    ensures forall c :: c in Selected(opts, cs) <==> c in cs && Keep(opts, c)
  {
    if cs != [] {
      var init := cs[..|cs| - 1];
      SelectedIff(opts, init);
      assert cs == init + [cs[|cs| - 1]];
    }
  }

  /** A record is kept exactly when it passes every test, and every kept
      record meets what the options ask for. */
  lemma SelectedMembers(opts: FilterOptions, cs: seq<Component>)
    ensures forall c :: c in Selected(opts, cs) <==> c in cs && Keep(opts, c)
    ensures forall c :: c in Selected(opts, cs) ==>
      && !StartsWith(c.ref, "#")
      && (opts.unspecified ==> c.url == "")
      && (!opts.all ==> |c.url| != 1)
      && forall f :: opts.AllowList(f).Some? ==> InAllowList(Get(c, f), opts.AllowList(f).value)
  {
    SelectedIff(opts, cs);
    forall c, f | c in Selected(opts, cs) && opts.AllowList(f).Some?
      ensures InAllowList(Get(c, f), opts.AllowList(f).value)
    {
      assert PassesList(opts, c, f);
    }
  }

  /** Filtering twice keeps the same records as filtering once. */
  /** When every record passes, the filter returns its input unchanged, in order. */
  lemma {:induction false} SelectedAll(opts: FilterOptions, cs: seq<Component>)
    requires forall c :: c in cs ==> Keep(opts, c)
    ensures Selected(opts, cs) == cs
  {
    if cs != [] {
      var init, c := cs[..|cs| - 1], cs[|cs| - 1];
      assert forall x :: x in init ==> x in cs;
      SelectedAll(opts, init);
      assert c in cs;
      assert cs == init + [c];
    }
  }

  lemma {:induction false} SelectedIdempotent(opts: FilterOptions, cs: seq<Component>)
    ensures Selected(opts, Selected(opts, cs)) == Selected(opts, cs)
  {
    if cs != [] {
      var init, c := cs[..|cs| - 1], cs[|cs| - 1];
      SelectedIdempotent(opts, init);
      var tail := if Keep(opts, c) then [c] else [];
      SelectedAppend(opts, Selected(opts, init), tail);
      if Keep(opts, c) {
        assert Selected(opts, [c]) == [c] by {
          assert [c][..0] == [];
        }
      }
    }
  }

  /** With no option given, the filter drops exactly the power symbols and
      the records whose URL is a one-character placeholder. */
  lemma NoOptions(c: Component)
    ensures Keep(FilterOptions(false, false, None, None, None, None, None, None), c)
      <==> !StartsWith(c.ref, "#") && |c.url| != 1
  {
  }

  /** Both `-u` and `-a`: only the records without a URL are kept, and `-a`
      has no effect. */
  lemma UnspecifiedAndAll(opts: FilterOptions, c: Component)
    requires opts.unspecified && opts.all
    ensures Keep(opts, c) ==> c.url == ""
    ensures Keep(opts, c) <==> Keep(opts.(all := false), c)
  {
    forall f ensures PassesList(opts, c, f) == PassesList(opts.(all := false), c, f) {
      assert opts.AllowList(f) == opts.(all := false).AllowList(f);
    }
  }

  /** An allow-list written as the comma-joined texts `ws` admits exactly the
      values equal to one of them once lowered. */
  lemma AllowListMembers(v: string, ws: seq<string>)
    requires |ws| >= 1 && forall i :: 0 <= i < |ws| ==> ',' !in ws[i]
    ensures InAllowList(v, Join(ws, ',')) <==> exists i :: 0 <= i < |ws| && Lower(ws[i]) == Lower(v)
  {
    LowerJoin(ws, ',');
    var lowered := LowerAll(ws);
    SplitJoin(lowered, ',');
    if InAllowList(v, Join(ws, ',')) {
      var i :| 0 <= i < |lowered| && lowered[i] == Lower(v);
      assert Lower(ws[i]) == Lower(v);
    }
    if exists i :: 0 <= i < |ws| && Lower(ws[i]) == Lower(v) {
      var i :| 0 <= i < |ws| && Lower(ws[i]) == Lower(v);
      assert lowered[i] == Lower(v);
    }
  }

  /** The allow-lists ignore case on both sides. */
  lemma AllowListIgnoresCase(v: string, w: string, list: string)
    requires Lower(v) == Lower(w)
    ensures InAllowList(v, list) <==> InAllowList(w, list)
  {
  }
}
