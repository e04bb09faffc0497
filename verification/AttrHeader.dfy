/** The attributes header of a transaction certificate: lib/tcert/tcert.go, buildAttributesHeader. */
module AttrHeader {
  import opened Common

  const HASH: byte := '#' as int
  const ARROW: Bytes := ['-' as int, '>' as int]

  function Body(name: Bytes, position: nat): (r: Bytes) { name + ARROW + Itoa(position) }

  function Entry(name: Bytes, position: nat): (r: Bytes) { Body(name, position) + [HASH] }

  function Flatten(parts: seq<Bytes>): (r: Bytes) {
    if parts == [] then [] else parts[0] + Flatten(parts[1..])
  }

  /** The entries of `m`, one per element of `order`. */
  function Entries(m: map<Bytes, nat>, order: seq<Bytes>): (r: seq<Bytes>)
    requires forall i :: 0 <= i < |order| ==> order[i] in m
    ensures |r| == |order|
  {
    seq(|order|, i requires 0 <= i < |order| => Entry(order[i], m[order[i]]))
  }

  function Render(m: map<Bytes, nat>, order: seq<Bytes>): (h: Bytes)
    requires forall i :: 0 <= i < |order| ==> order[i] in m
  {
    Flatten(Entries(m, order))
  }

  /** `order` lists each key of `m` once: one of the iteration orders a Go map may choose. */
  ghost predicate IterationOrder(order: seq<Bytes>, m: map<Bytes, nat>) {
    && (forall i :: 0 <= i < |order| ==> order[i] in m)
    && (forall k :: k in m ==> k in order)
    && (forall i, j :: 0 <= i < j < |order| ==> order[i] != order[j])
  }

  /** `h` is what some iteration order writes for `m`. */
  ghost predicate IsHeaderOf(h: Bytes, m: map<Bytes, nat>) {
    exists order :: IterationOrder(order, m) && h == Render(m, order)
  }

  lemma {:induction false} FlattenAppend(parts: seq<Bytes>, last: Bytes)
    ensures Flatten(parts + [last]) == Flatten(parts) + last
  {
    if parts == [] {
      assert Flatten([last]) == last + Flatten([]);
    } else {
      FlattenAppend(parts[1..], last);
      assert (parts + [last])[1..] == parts[1..] + [last];
    }
  }

  lemma AsciiMarks()
    ensures Ascii("->") == ARROW && Ascii("#") == [HASH]
  {
  }

  method BuildAttributesHeader(attributesHeader: map<Bytes, nat>) returns (headerString: Bytes)
    ensures IsHeaderOf(headerString, attributesHeader)
  {
    headerString := [];
    var rest := attributesHeader.Keys;
    ghost var order: seq<Bytes> := [];
    while rest != {}
      invariant rest <= attributesHeader.Keys
      invariant forall k :: k in attributesHeader ==> (k in order <==> k !in rest)
      invariant forall i :: 0 <= i < |order| ==> order[i] in attributesHeader
      invariant forall i, j :: 0 <= i < j < |order| ==> order[i] != order[j]
      invariant headerString == Render(attributesHeader, order)
      decreases rest
    {
      var k :| k in rest;
      FlattenAppend(Entries(attributesHeader, order), Entry(k, attributesHeader[k]));
      assert Entries(attributesHeader, order + [k])
          == Entries(attributesHeader, order) + [Entry(k, attributesHeader[k])];
      AsciiMarks();
      headerString := headerString + (k + Ascii("->") + Itoa(attributesHeader[k]) + Ascii("#"));
      order := order + [k];
      rest := rest - {k};
    }
    assert IterationOrder(order, attributesHeader);
  }

  // ----- Reading a header back -----

  /** Where the last arrow of `p` starts. */
  function LastArrow(p: Bytes): (r: Option<nat>)
    ensures r.Some? ==> r.value + 2 <= |p|
  {
    if |p| < 2 then None
    else if p[|p| - 2..] == ARROW then Some(|p| - 2)
    else LastArrow(p[..|p| - 1])
  }

  function ParseBody(p: Bytes): (r: Option<(Bytes, nat)>) {
    match LastArrow(p)
    case None => None
    case Some(i) =>
      if forall j :: i + 2 <= j < |p| ==> IsDigit(p[j])
      then Some((p[..i], DigitsValue(p[i + 2..]))) else None
  }

  /** Later entries win, as they would when filling a map. */
  function ParseBodies(ps: seq<Bytes>): (m: map<Bytes, nat>) {
    if ps == [] then map[]
    else
      var rest := ParseBodies(ps[1..]);
      match ParseBody(ps[0])
      case Some((k, v)) => if k in rest then rest else rest[k := v]
      case None => rest
  }

  /** Split on "#", then on the last "->". */
  function ParseHeader(h: Bytes): (m: map<Bytes, nat>) { ParseBodies(Split(h, HASH)) }

  lemma {:induction false} LastArrowOfBody(name: Bytes, digits: Bytes)
    requires forall i :: 0 <= i < |digits| ==> IsDigit(digits[i])
    ensures LastArrow(name + ARROW + digits) == Some(|name|)
  {
    var p := name + ARROW + digits;
    if digits == [] {
      assert p[|p| - 2..] == ARROW;
    } else {
      var shorter := digits[..|digits| - 1];
      assert p[|p| - 1] == digits[|digits| - 1] && IsDigit(p[|p| - 1]);
      assert p[|p| - 2..][1] == p[|p| - 1];
      assert p[..|p| - 1] == name + ARROW + shorter;
      LastArrowOfBody(name, shorter);
    }
  }

  lemma ParseOfBody(name: Bytes, position: nat)
    ensures ParseBody(Body(name, position)) == Some((name, position))
  {
    var p, d := Body(name, position), Itoa(position);
    LastArrowOfBody(name, d);
    assert p[..|name|] == name && p[|name| + 2..] == d;
    assert forall j :: |name| + 2 <= j < |p| ==> p[j] == d[j - |name| - 2];
    DigitsRoundTrip(position);
  }

  lemma SplitEntry(name: Bytes, position: nat, rest: Bytes)
    requires HASH !in name
    ensures Split(Entry(name, position) + rest, HASH) == [Body(name, position)] + Split(rest, HASH)
  {
    var body := Body(name, position);
    assert forall i :: 0 <= i < |Itoa(position)| ==> IsDigit(Itoa(position)[i]);
    SplitSepFree(body, HASH);
    SplitConcat(body, rest, HASH);
  }

  lemma ParseOfNothing()
    ensures ParseHeader([]) == map[]
  {
    assert ParseBodies([[]][1..]) == map[];
  }

  lemma ParseStep(name: Bytes, position: nat, ps: seq<Bytes>)
    ensures var rest := ParseBodies(ps);
            ParseBodies([Body(name, position)] + ps) == if name in rest then rest else rest[name := position]
  {
    ParseOfBody(name, position);
    assert ([Body(name, position)] + ps)[1..] == ps;
  }

  lemma {:induction false} ParseRendered(m: map<Bytes, nat>, order: seq<Bytes>)
    requires forall i :: 0 <= i < |order| ==> order[i] in m && HASH !in order[i]
    ensures forall k :: k in ParseHeader(Render(m, order)) <==> k in order
    ensures forall k :: k in ParseHeader(Render(m, order)) ==> ParseHeader(Render(m, order))[k] == m[k]
  {
    if order == [] {
      ParseOfNothing();
      assert Entries(m, order) == [];
    } else {
      var k := order[0];
      assert Entries(m, order)[1..] == Entries(m, order[1..]);
      var ps := Split(Render(m, order[1..]), HASH);
      SplitEntry(k, m[k], Render(m, order[1..]));
      ParseStep(k, m[k], ps);
      ParseRendered(m, order[1..]);
      assert forall x :: x in order <==> x == k || x in order[1..];
    }
  }

  lemma {:induction false} ParsedNamesAreHashFree(ps: seq<Bytes>)
    requires SepFree(ps, HASH)
    ensures forall k :: k in ParseBodies(ps) ==> HASH !in k
  {
    if ps != [] {
      ParsedNamesAreHashFree(ps[1..]);
      assert HASH !in ps[0];
    }
  }

  lemma HeaderOfHashFreeNames(h: Bytes, m: map<Bytes, nat>)
    requires IsHeaderOf(h, m)
    requires forall k :: k in m ==> HASH !in k
    ensures ParseHeader(h) == m
  {
    var order :| IterationOrder(order, m) && h == Render(m, order);
    ParseRendered(m, order);
  }

  /**
   * Whatever the iteration order, the header bytes give the map back exactly when
   * no attribute name contains "#".
   */
  lemma HeaderDeterminesMap(h: Bytes, m: map<Bytes, nat>)
    requires IsHeaderOf(h, m)
    ensures ParseHeader(h) == m <==> forall k :: k in m ==> '#' as int !in k
  {
    if forall k :: k in m ==> HASH !in k {
      HeaderOfHashFreeNames(h, m);
    } else {
      SplitIsSepFree(h, HASH);
      ParsedNamesAreHashFree(Split(h, HASH));
    }
  }

  lemma RenderOne(m: map<Bytes, nat>, a: Bytes)
    requires a in m
    ensures Render(m, [a]) == Entry(a, m[a])
  {
    assert Entries(m, [a]) == [] + [Entry(a, m[a])];
    FlattenAppend([], Entry(a, m[a]));
  }

  lemma RenderTwo(m: map<Bytes, nat>, a: Bytes, b: Bytes)
    requires a in m && b in m
    ensures Render(m, [a, b]) == Entry(a, m[a]) + Entry(b, m[b])
  {
    RenderOne(m, a);
    assert Entries(m, [a, b]) == Entries(m, [a]) + [Entry(b, m[b])];
    FlattenAppend(Entries(m, [a]), Entry(b, m[b]));
  }

  lemma EntryAfterEntry(a: Bytes, p: nat, b: Bytes, q: nat)
    ensures Entry(Entry(a, p) + b, q) == Entry(a, p) + Entry(b, q)
  {
  }

  /** Any two-attribute map shares a header with a one-attribute map whose name contains "#". */
  lemma HashInNameIsAmbiguous(a: Bytes, p: nat, b: Bytes, q: nat, longer: Bytes)
    requires a != b && longer == Entry(a, p) + b
    ensures exists h :: IsHeaderOf(h, map[a := p, b := q]) && IsHeaderOf(h, map[longer := q])
  {
    hide Render, Entry;
    var m, n := map[a := p, b := q], map[longer := q];
    RenderTwo(m, a, b);
    RenderOne(n, longer);
    EntryAfterEntry(a, p, b, q);
    assert IterationOrder([a, b], m) && IterationOrder([longer], n);
    assert IsHeaderOf(Render(m, [a, b]), m) && IsHeaderOf(Render(n, [longer]), n);
  }
}
