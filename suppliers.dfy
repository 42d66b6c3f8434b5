/** The pass of kicad2bom.py that derives `supplier` and `supplier_ref` from
    a record's URL. URL parsing itself is a parameter: `UrlParts` stands for
    the netloc, path and query that `urlparse` returns. */
module Suppliers {
  import opened Wrappers
  import opened Strings
  import opened Records

  /** The parts of `urlparse(url)` the classifier reads. */
  datatype UrlParts = UrlParts(netloc: string, path: string, query: string)

  /** `url.path.split("/")[-2]` on a path with no '/' raises IndexError. */
  datatype EnrichError = NoSecondToLastPiece

  /** What the rules decide for one URL: no supplier, or a supplier and,
      when the rule sets one, a supplier reference. */
  datatype Classification =
    | Unclassified
    | Classified(supplier: string, reference: Option<string>)

  /** `pieces[-1]`; `Split` never returns an empty list. */
  function LastPiece(pieces: seq<string>): string
    requires |pieces| >= 1
  {
    pieces[|pieces| - 1]
  }

  /** `pieces[-2]`, which raises when there is only one piece. */
  function SecondToLastPiece(pieces: seq<string>): (r: Result<string, EnrichError>)
    ensures r.Ok? <==> |pieces| >= 2
    ensures r.Ok? ==> r.value in pieces
  {
    if |pieces| < 2 then Err(NoSecondToLastPiece) else Ok(pieces[|pieces| - 2])
  }

  /** The supplier rules, tried in order on the netloc. */
  function Classify(u: UrlParts): (r: Result<Classification, EnrichError>)
    ensures r == Ok(Unclassified) <==>
      !Contains(u.netloc, "farnell") && !Contains(u.netloc, "mouser") && !Contains(u.netloc, "digikey")
    ensures r.Ok? && r.value.Classified? ==>
      r.value.supplier in {"farnell", "mouser", "digikey"} && Contains(u.netloc, r.value.supplier)
    ensures r.Err? ==> Contains(u.netloc, "mouser") || Contains(u.netloc, "digikey")
    ensures r.Err? <==>
      !Contains(u.netloc, "farnell") && !Contains(u.netloc, "mouser") && Contains(u.netloc, "digikey")
      && '/' !in u.path
  {
    SplitCount(u.path, '/');
    if Contains(u.netloc, "farnell") then
      Ok(Classified("farnell", Some(LastPiece(Split(u.path, '/')))))
    else if Contains(u.netloc, "mouser") then
      if StartsWith(u.path, "/search/ProductDetail.aspx") then
        Ok(Classified("mouser", Some(AfterLast(u.query, "virtualkey"))))
      else if StartsWith(u.path, "/ProductDetail/") then
        assert u.path[0] == u.path[..15][0];
        match SecondToLastPiece(Split(u.path, '/'))
        case Err(e) => Err(e)
        case Ok(r) => Ok(Classified("mouser", Some(r)))
      else
        Ok(Classified("mouser", None))
    else if Contains(u.netloc, "digikey") then
      match SecondToLastPiece(Split(u.path, '/'))
      case Err(e) => Err(e)
      case Ok(r) => Ok(Classified("digikey", Some(r)))
    else
      Ok(Unclassified)
  }

  /** The record after the pass, given `u`, the parse of its URL. Only URLs
      starting with "http" are looked at. */
  function Enrich(c: Component, u: UrlParts): (r: Result<Component, EnrichError>)
    ensures r.Ok? ==>
      && r.value.multiplier == c.multiplier
      && forall f :: f != Supplier && f != SupplierRef ==> Get(r.value, f) == Get(c, f)
    ensures !StartsWith(c.url, "http") || Classify(u) == Ok(Unclassified) ==> r == Ok(c)
    ensures r.Err? <==> StartsWith(c.url, "http") && Classify(u).Err?
    ensures r.Err? <==>
      StartsWith(c.url, "http") && !Contains(u.netloc, "farnell") && !Contains(u.netloc, "mouser")
      && Contains(u.netloc, "digikey") && '/' !in u.path
  {
    if !StartsWith(c.url, "http") then Ok(c)
    else
      match Classify(u)
      case Err(e) => Err(e)
      case Ok(Unclassified) => Ok(c)
      case Ok(Classified(s, None)) => Ok(c.(supplier := s))
      case Ok(Classified(s, Some(r))) => Ok(c.(supplier := s, supplierRef := r))
  }

  /** The pass over all records, stopping at the first that raises. */
  function EnrichSeq(cs: seq<Component>, parse: string -> UrlParts): (r: Result<seq<Component>, EnrichError>)
    ensures r.Ok? ==> |r.value| == |cs|
  {
    if cs == [] then Ok([])
    else
      match EnrichSeq(cs[..|cs| - 1], parse)
      case Err(e) => Err(e)
      case Ok(done) =>
        var c := cs[|cs| - 1];
        match Enrich(c, parse(c.url))
        case Err(e) => Err(e)
        case Ok(c') => Ok(done + [c'])
  }

  /** The pass as the program runs it: each record of the list is updated in place. */
  method EnrichAll(a: array<Component>, parse: string -> UrlParts) returns (r: Result<(), EnrichError>)
    modifies a
    ensures match EnrichSeq(old(a[..]), parse)
      case Ok(cs) => r.Ok? && a[..] == cs
      case Err(e) => r == Err(e)
  {
    ghost var input := a[..];
    for i := 0 to a.Length
      invariant forall j :: i <= j < a.Length ==> a[j] == input[j]
      invariant EnrichSeq(input[..i], parse) == Ok(a[..i])
    {
      ghost var done := a[..i];
      EnrichSeqStep(input, parse, i, done);
      var e := EnrichOne(a[i], parse(a[i].url));
      if e.Err? {
        EnrichErrorPersists(input, parse, i + 1);
        return Err(e.error);
      }
      a[i] := e.value;
      assert a[..i + 1] == done + [e.value];
    }
    assert a[..] == a[..a.Length] && input == input[..a.Length];
    r := Ok(());
  }

  /** The body of the pass for one record, whose URL parses into `u`. */
  method EnrichOne(c: Component, u: UrlParts) returns (r: Result<Component, EnrichError>)
    ensures r == Enrich(c, u)
  {
    var c' := c;
    if StartsWith(c.url, "http") {
      var k := Classify(u);
      if k.Err? {
        return Err(k.error);
      }
      if k.value.Classified? {
        c' := c'.(supplier := k.value.supplier);
        if k.value.reference.Some? {
          c' := c'.(supplierRef := k.value.reference.value);
        }
      }
    }
    r := Ok(c');
  }

  lemma EnrichSeqStep(cs: seq<Component>, parse: string -> UrlParts, i: nat, done: seq<Component>)
    requires i < |cs| && EnrichSeq(cs[..i], parse) == Ok(done)
    ensures EnrichSeq(cs[..i + 1], parse) ==
      match Enrich(cs[i], parse(cs[i].url))
      case Err(e) => Err(e)
      case Ok(c') => Ok(done + [c'])
  {
    assert cs[..i + 1][..i] == cs[..i];
  }


  lemma {:induction false} EnrichErrorPersists(cs: seq<Component>, parse: string -> UrlParts, k: nat)
    requires k <= |cs| && EnrichSeq(cs[..k], parse).Err?
    ensures EnrichSeq(cs, parse) == EnrichSeq(cs[..k], parse)
  {
    if k < |cs| {
      var init := cs[..|cs| - 1];
      assert init[..k] == cs[..k];
      EnrichErrorPersists(init, parse, k);
    } else {
      assert cs[..k] == cs;
    }
  }

  // ---------------------------------------------------------------------
  // What the pass changes

  /** Records whose URL starts with "http" get exactly what the rules decide. */
  lemma EnrichClassified(c: Component, u: UrlParts)
    requires StartsWith(c.url, "http")
    ensures Classify(u).Err? <==> Enrich(c, u).Err?
    ensures Classify(u).Ok? && Classify(u).value.Classified? ==>
      && Enrich(c, u).value.supplier == Classify(u).value.supplier
      && Enrich(c, u).value.supplierRef ==
        (if Classify(u).value.reference.Some? then Classify(u).value.reference.value else c.supplierRef)
  {
  }

  /** The pass keeps the number and order of records; each one is the
      result of `Enrich` on the record at the same position. */
  lemma {:induction false} EnrichSeqPointwise(cs: seq<Component>, parse: string -> UrlParts)
    ensures EnrichSeq(cs, parse).Ok? ==>
      && |EnrichSeq(cs, parse).value| == |cs|
      && forall i :: 0 <= i < |cs| ==> Enrich(cs[i], parse(cs[i].url)) == Ok(EnrichSeq(cs, parse).value[i])
    ensures EnrichSeq(cs, parse).Err? <==>
      exists i :: 0 <= i < |cs| && Enrich(cs[i], parse(cs[i].url)).Err?
  {
    if cs != [] {
      var init := cs[..|cs| - 1];
      EnrichSeqPointwise(init, parse);
      assert forall i :: 0 <= i < |init| ==> init[i] == cs[i];
      if EnrichSeq(init, parse).Err? {
        var i :| 0 <= i < |init| && Enrich(init[i], parse(init[i].url)).Err?;
        assert Enrich(cs[i], parse(cs[i].url)).Err?;
      }
    }
  }

  // ---------------------------------------------------------------------
  // The reference each rule extracts

  /** The last '/'-separated piece of a path is the text after its last '/'. */
  lemma LastPieceOfPath(p: string, ref: string)
    requires '/' !in ref
    ensures LastPiece(Split(p + "/" + ref, '/')) == ref
  {
    SplitAt(p, '/', ref);
    SplitFree(ref, '/');
  }

  /** The second-to-last piece of a path is the text between its last two '/'. */
  lemma SecondToLastOfPath(p: string, ref: string, tail: string)
    requires '/' !in ref && '/' !in tail
    ensures SecondToLastPiece(Split(p + "/" + ref + "/" + tail, '/')) == Ok(ref)
  {
    SplitAt(p + "/" + ref, '/', tail);
    SplitAt(p, '/', ref);
    SplitFree(ref, '/');
    SplitFree(tail, '/');
    assert p + "/" + ref + "/" + tail == (p + "/" + ref) + ['/'] + tail;
    assert p + "/" + ref == p + ['/'] + ref;
  }

  /** A Farnell URL's reference is the last segment of its path. */
  lemma FarnellReference(netloc: string, p: string, ref: string, query: string)
    requires Contains(netloc, "farnell") && '/' !in ref
    ensures Classify(UrlParts(netloc, p + "/" + ref, query)) == Ok(Classified("farnell", Some(ref)))
  {
    LastPieceOfPath(p, ref);
  }

  /** A Digi-Key URL's reference is the segment before the last one; a
      Digi-Key path with no '/' raises. */
  lemma DigikeyReference(netloc: string, p: string, ref: string, tail: string, query: string)
    requires !Contains(netloc, "farnell") && !Contains(netloc, "mouser") && Contains(netloc, "digikey")
    requires '/' !in ref && '/' !in tail
    ensures Classify(UrlParts(netloc, p + "/" + ref + "/" + tail, query)) == Ok(Classified("digikey", Some(ref)))
    ensures forall path :: '/' !in path ==> Classify(UrlParts(netloc, path, query)) == Err(NoSecondToLastPiece)
  {
    SecondToLastOfPath(p, ref, tail);
    forall path | '/' !in path
      ensures Classify(UrlParts(netloc, path, query)) == Err(NoSecondToLastPiece)
    {
      SplitFree(path, '/');
    }
  }

  lemma VirtualKeyNoBorder()
    ensures NoBorder("virtualkey")
  {
    var sep := "virtualkey";
    forall m | 0 < m < |sep| ensures sep[..m] != sep[|sep| - m..] {
      assert sep[..m][0] == 'v';
      assert sep[|sep| - m..][0] == sep[|sep| - m];
    }
  }

  /** A Mouser search URL's reference is what follows the last "virtualkey"
      in its query. */
  lemma MouserSearchReference(netloc: string, path: string, q: string, key: string)
    requires !Contains(netloc, "farnell") && Contains(netloc, "mouser")
    requires StartsWith(path, "/search/ProductDetail.aspx") && !Contains(key, "virtualkey")
    ensures Classify(UrlParts(netloc, path, q + "virtualkey" + key)) == Ok(Classified("mouser", Some(key)))
  {
    VirtualKeyNoBorder();
    AfterLastOfSuffix(q, "virtualkey", key);
  }

  /** A Mouser product URL's reference is the path segment before the last one. */
  lemma MouserProductReference(netloc: string, p: string, ref: string, tail: string, query: string)
    requires !Contains(netloc, "farnell") && Contains(netloc, "mouser")
    requires '/' !in ref && '/' !in tail
    requires StartsWith(p + "/" + ref + "/" + tail, "/ProductDetail/")
    ensures Classify(UrlParts(netloc, p + "/" + ref + "/" + tail, query)) == Ok(Classified("mouser", Some(ref)))
  {
    var path := p + "/" + ref + "/" + tail;
    SecondToLastOfPath(p, ref, tail);
    assert path[1] == path[..15][1];
    assert path[1] != "/search/ProductDetail.aspx"[1];
  }


  /** Any other Mouser URL names the supplier but leaves `supplier_ref` as it was. */
  lemma MouserOtherPath(c: Component, u: UrlParts)
    requires StartsWith(c.url, "http") && !Contains(u.netloc, "farnell") && Contains(u.netloc, "mouser")
    requires !StartsWith(u.path, "/search/ProductDetail.aspx") && !StartsWith(u.path, "/ProductDetail/")
    ensures Enrich(c, u) == Ok(c.(supplier := "mouser"))
  {
  }

  /** A Farnell search url: the reference is the last path segment. */
  lemma FarnellExample()
    ensures Classify(UrlParts("fr.farnell.com", "/search/abc123", "")) == Ok(Classified("farnell", Some("abc123")))
  {
    assert "fr.farnell.com"[3..10] == "farnell";
    assert OccursAt("fr.farnell.com", "farnell", 3);
    assert "/search/abc123" == "/search" + "/" + "abc123";
    LastPieceOfPath("/search", "abc123");
  }
}
