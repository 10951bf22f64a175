/** The slab cache: per-slab free lists, per-CPU magazines, and lists of partly used and unused slabs. */
module Slab {
  import opened Blocks
  import opened Counting
  import opened Options
  import opened SlabSpace

  const MAG_SIZE: nat := 32
  const MAX_EMPTY: nat := 8

  /** Where an object is: on its slab's free list, in a CPU's magazine, or with a caller. */
  datatype Place = Free | Mag(cpu: nat) | Out

  type FreeLists = map<nat, seq<nat>>

  ghost predicate SlabOk(g: Geo, b: nat, fl: seq<nat>, inuse: nat) {
    && Aligned(b, g.shift) && Distinct(fl) && inuse + |fl| == g.objs
    && forall k :: 0 <= k < |fl| ==> IsObj(g, b, fl[k])
  }

  ghost predicate SlabsOk(g: Geo, fl: FreeLists, inuse: map<nat, nat>) {
    fl.Keys == inuse.Keys && forall b: nat :: b in fl ==> SlabOk(g, b, fl[b], inuse[b])
  }

  /** The object belongs to a slab of the cache. */
  ghost predicate Known(g: Geo, fl: FreeLists, o: nat) {
    SlabOf(g, o) in fl && IsObj(g, SlabOf(g, o), o)
  }

  /** Every object of every slab is in one place, and the lists and magazines say the same. */
  ghost predicate PlacesOk(g: Geo, fl: FreeLists, mags: seq<seq<nat>>, place: map<nat, Place>) {
    && (forall o: nat {:trigger o in place} {:trigger Known(g, fl, o)} :: o in place <==> Known(g, fl, o))
    && (forall o: nat {:trigger place[o]} :: o in place ==> (place[o] == Free <==> o in fl[SlabOf(g, o)]))
    && (forall c: nat, o: nat {:trigger o in mags[c]} :: c < |mags| ==> (o in mags[c] <==> o in place && place[o] == Mag(c)))
    && (forall c: nat :: c < |mags| ==> Distinct(mags[c]) && |mags[c]| <= MAG_SIZE)
  }

  /** Every slab but those in `off` is on the list its use count calls for: partly used, unused, or none if full. */
  ghost predicate ListsOk(g: Geo, inuse: map<nat, nat>, partial: seq<nat>, empty: seq<nat>, off: set<nat>) {
    && Distinct(partial) && Distinct(empty) && |empty| <= MAX_EMPTY
    && (forall b: nat {:trigger b in partial} :: b in partial <==> b in inuse && b !in off && 0 < inuse[b] < g.objs)
    && (forall b: nat {:trigger b in empty} :: b in empty <==> b in inuse && b !in off && inuse[b] == 0)
  }

  lemma ObjHome(g: Geo, fl: FreeLists, inuse: map<nat, nat>, b: nat, o: nat)
    requires GeoOk(g) && SlabsOk(g, fl, inuse) && b in fl && IsObj(g, b, o)
    ensures SlabOf(g, o) == b && Known(g, fl, o)
  {
    SlabOfObj(g, b, o);
  }

  lemma TailOk(g: Geo, b: nat, fl: seq<nat>, inuse: nat)
    requires SlabOk(g, b, fl, inuse) && fl != []
    ensures SlabOk(g, b, fl[1..], inuse + 1) && IsObj(g, b, fl[0])
    ensures forall x: nat :: x in fl[1..] <==> x in fl && x != fl[0]
  {
    var t := fl[1..];
    assert fl == [fl[0]] + t;
    forall k: nat | k < |t| ensures IsObj(g, b, t[k]) { assert IsObj(g, b, fl[k + 1]); }
    assert fl[0] !in t;
  }

  /** Taking the head of a free list into a magazine. */
  lemma TakeOne(g: Geo, fl: FreeLists, inuse: map<nat, nat>, mags: seq<seq<nat>>, place: map<nat, Place>, b: nat, c: nat)
    requires GeoOk(g) && SlabsOk(g, fl, inuse) && PlacesOk(g, fl, mags, place)
    requires b in fl && fl[b] != [] && c < |mags| && |mags[c]| < MAG_SIZE
    ensures var o := fl[b][0]; var fl' := fl[b := fl[b][1..]];
      && o in place && place[o] == Free
      && SlabsOk(g, fl', inuse[b := inuse[b] + 1])
      && PlacesOk(g, fl', mags[c := mags[c] + [o]], place[o := Mag(c)])
  {
    var o, t := fl[b][0], fl[b][1..];
    TailOk(g, b, fl[b], inuse[b]);
    ObjHome(g, fl, inuse, b, o);
    TakePlaces(g, fl, mags, place, b, t, c, o);
  }

  lemma TakePlaces(g: Geo, fl: FreeLists, mags: seq<seq<nat>>, place: map<nat, Place>, b: nat, t: seq<nat>, c: nat, o: nat)
    requires PlacesOk(g, fl, mags, place) && b in fl && c < |mags| && |mags[c]| < MAG_SIZE
    requires o in fl[b] && SlabOf(g, o) == b && Known(g, fl, o) && forall x: nat :: x in t <==> x in fl[b] && x != o
    ensures o in place && place[o] == Free && PlacesOk(g, fl[b := t], mags[c := mags[c] + [o]], place[o := Mag(c)])
  {
    var fl', mags', place' := fl[b := t], mags[c := mags[c] + [o]], place[o := Mag(c)];
    assert o in place && place[o] == Free;
    assert o !in mags[c];
    forall x: nat ensures x in place' <==> Known(g, fl', x) { assert x in place <==> Known(g, fl, x); }
    forall x: nat | x in place' ensures place'[x] == Free <==> x in fl'[SlabOf(g, x)] {
      assert x in place && (place[x] == Free <==> x in fl[SlabOf(g, x)]);
    }
    forall d: nat, x: nat | d < |mags'| ensures x in mags'[d] <==> x in place' && place'[x] == Mag(d) {
      assert x in mags[d] <==> x in place && place[x] == Mag(d);
    }
  }

  /** Putting the last object of a magazine back on its slab's free list. */
  lemma PutOne(g: Geo, fl: FreeLists, inuse: map<nat, nat>, mags: seq<seq<nat>>, place: map<nat, Place>, c: nat)
    requires GeoOk(g) && SlabsOk(g, fl, inuse) && PlacesOk(g, fl, mags, place)
    requires c < |mags| && mags[c] != []
    ensures var k := |mags[c]| - 1; var o := mags[c][k]; var b := SlabOf(g, o);
      && b in fl && IsObj(g, b, o) && b in inuse && inuse[b] > 0
      && var fl' := fl[b := [o] + fl[b]];
      && SlabsOk(g, fl', inuse[b := inuse[b] - 1])
      && PlacesOk(g, fl', mags[c := mags[c][..k]], place[o := Free])
  {
    var k := |mags[c]| - 1;
    var o := mags[c][k];
    var b := SlabOf(g, o);
    assert o in mags[c] && o in place && Known(g, fl, o) && SlabOk(g, b, fl[b], inuse[b]);
    assert o !in fl[b] by { assert place[o] == Mag(c); }
    if inuse[b] == 0 { AllFreeObjs(g, b, fl[b], o); }
    var fl', mags', place' := fl[b := [o] + fl[b]], mags[c := mags[c][..k]], place[o := Free];
    assert mags[c] == mags[c][..k] + [o];
    forall x: nat ensures x in place' <==> Known(g, fl', x) { assert x in place <==> Known(g, fl, x); }
    forall x: nat | x in place' ensures place'[x] == Free <==> x in fl'[SlabOf(g, x)] {
      assert x in place && (place[x] == Free <==> x in fl[SlabOf(g, x)]);
    }
    forall d: nat, x: nat | d < |mags'| ensures x in mags'[d] <==> x in place' && place'[x] == Mag(d) {
      assert x in mags[d] <==> x in place && place[x] == Mag(d);
    }
  }

  /** An object goes from the top of a magazine to a caller. */
  lemma HandOut(g: Geo, fl: FreeLists, mags: seq<seq<nat>>, place: map<nat, Place>, c: nat)
    requires PlacesOk(g, fl, mags, place) && c < |mags| && mags[c] != []
    ensures var k := |mags[c]| - 1; var o := mags[c][k];
      o in place && place[o] == Mag(c) && PlacesOk(g, fl, mags[c := mags[c][..k]], place[o := Out])
  {
    var k := |mags[c]| - 1;
    var o := mags[c][k];
    assert o in mags[c] && o in place;
    var mags', place' := mags[c := mags[c][..k]], place[o := Out];
    assert mags[c] == mags[c][..k] + [o];
    forall x: nat | x in place' ensures place'[x] == Free <==> x in fl[SlabOf(g, x)] {
      assert x in place && (place[x] == Free <==> x in fl[SlabOf(g, x)]);
    }
    forall d: nat, x: nat | d < |mags'| ensures x in mags'[d] <==> x in place' && place'[x] == Mag(d) {
      assert x in mags[d] <==> x in place && place[x] == Mag(d);
    }
  }

  /** And back. */
  lemma HandIn(g: Geo, fl: FreeLists, mags: seq<seq<nat>>, place: map<nat, Place>, c: nat, o: nat)
    requires PlacesOk(g, fl, mags, place) && c < |mags| && |mags[c]| < MAG_SIZE && o in place && place[o] == Out
    ensures PlacesOk(g, fl, mags[c := mags[c] + [o]], place[o := Mag(c)])
  {
    var mags', place' := mags[c := mags[c] + [o]], place[o := Mag(c)];
    assert o !in mags[c];
    forall x: nat | x in place' ensures place'[x] == Free <==> x in fl[SlabOf(g, x)] {
      assert x in place && (place[x] == Free <==> x in fl[SlabOf(g, x)]);
    }
    forall d: nat, x: nat | d < |mags'| ensures x in mags'[d] <==> x in place' && place'[x] == Mag(d) {
      assert x in mags[d] <==> x in place && place[x] == Mag(d);
    }
  }

  ghost function WithFree(place: map<nat, Place>, objs: seq<nat>): map<nat, Place> {
    map o: nat | o in place.Keys + Elems(objs) :: if o in objs then Free else place[o]
  }

  lemma AllObjsOk(g: Geo, b: nat)
    requires g.size > 0 && Aligned(b, g.shift)
    ensures SlabOk(g, b, AllObjs(g, b, g.objs), 0)
    ensures forall x: nat :: x in AllObjs(g, b, g.objs) <==> IsObj(g, b, x)
  {
    var objs := AllObjs(g, b, g.objs);
    AllObjsDistinct(g, b, g.objs);
    forall k: nat | k < |objs| ensures IsObj(g, b, objs[k]) {
      assert objs[g.objs - 1 - (g.objs - 1 - k)] == Obj(g, b, g.objs - 1 - k);
    }
    forall x: nat | IsObj(g, b, x) ensures x in objs {
      var i: nat :| i < g.objs && x == Obj(g, b, i);
      assert objs[g.objs - 1 - i] == x;
    }
  }

  /** A new slab brings its objects, all free. */
  lemma NewSlab(g: Geo, fl: FreeLists, inuse: map<nat, nat>, mags: seq<seq<nat>>, place: map<nat, Place>, b: nat, objs: seq<nat>)
    requires GeoOk(g) && SlabsOk(g, fl, inuse) && PlacesOk(g, fl, mags, place) && b !in fl && Aligned(b, g.shift)
    requires objs == AllObjs(g, b, g.objs)
    ensures SlabsOk(g, fl[b := objs], inuse[b := 0]) && PlacesOk(g, fl[b := objs], mags, WithFree(place, objs))
  {
    AllObjsOk(g, b);
    forall x: nat | x in objs ensures SlabOf(g, x) == b { SlabOfObj(g, b, x); }
    NewPlaces(g, fl, mags, place, b, objs);
  }

  lemma NewPlaces(g: Geo, fl: FreeLists, mags: seq<seq<nat>>, place: map<nat, Place>, b: nat, objs: seq<nat>)
    requires PlacesOk(g, fl, mags, place) && b !in fl
    requires forall x: nat :: x in objs <==> SlabOf(g, x) == b && IsObj(g, b, x)
    ensures PlacesOk(g, fl[b := objs], mags, WithFree(place, objs))
  {
    var fl', place' := fl[b := objs], WithFree(place, objs);
    forall x: nat ensures x in place' <==> Known(g, fl', x) { assert x in place <==> Known(g, fl, x); }
    forall x: nat | x in place' ensures place'[x] == Free <==> x in fl'[SlabOf(g, x)] {
      assert x !in objs ==> x in place && Known(g, fl, x) && (place[x] == Free <==> x in fl[SlabOf(g, x)]);
    }
    forall d: nat, x: nat | d < |mags| ensures x in mags[d] <==> x in place' && place'[x] == Mag(d) {
      assert x in mags[d] <==> x in place && place[x] == Mag(d);
      assert x in place ==> Known(g, fl, x);
    }
  }

  ghost function WithoutSlab(g: Geo, place: map<nat, Place>, b: nat): map<nat, Place> {
    map o: nat | o in place && SlabOf(g, o) != b :: place[o]
  }

  /** A slab that is not in use takes only free objects with it. */
  lemma DropSlab(g: Geo, fl: FreeLists, inuse: map<nat, nat>, mags: seq<seq<nat>>, place: map<nat, Place>, b: nat)
    requires GeoOk(g) && SlabsOk(g, fl, inuse) && PlacesOk(g, fl, mags, place) && b in fl && inuse[b] == 0
    ensures SlabsOk(g, fl - {b}, inuse - {b}) && PlacesOk(g, fl - {b}, mags, WithoutSlab(g, place, b))
    ensures forall o: nat :: o in place && SlabOf(g, o) == b ==> place[o] == Free
  {
    forall o: nat | o in place && SlabOf(g, o) == b ensures place[o] == Free {
      assert Known(g, fl, o) && SlabOk(g, b, fl[b], inuse[b]);
      AllFreeObjs(g, b, fl[b], o);
    }
    var fl', place' := fl - {b}, WithoutSlab(g, place, b);
    forall x: nat ensures x in place' <==> Known(g, fl', x) { assert x in place <==> Known(g, fl, x); }
    forall x: nat | x in place' ensures place'[x] == Free <==> x in fl'[SlabOf(g, x)] {
      assert x in place && (place[x] == Free <==> x in fl[SlabOf(g, x)]);
    }
    forall d: nat, x: nat | d < |mags| ensures x in mags[d] <==> x in place' && place'[x] == Mag(d) {
      assert x in mags[d] <==> x in place && place[x] == Mag(d);
    }
  }

  /** What `slab_put` makes of the two lists, for a slab that was full or not and is unused now or not. */
  function PutPartial(partial: seq<nat>, b: nat, wasFull: bool, unused: bool): seq<nat> {
    var p := if wasFull then [b] + partial else partial;
    if unused && !wasFull then Remove(p, b) else p
  }

  function PutEmpty(empty: seq<nat>, b: nat, unused: bool): seq<nat> {
    if unused && |empty| < MAX_EMPTY then [b] + empty else empty
  }

  /** The slab goes back to the page allocator: it is unused and enough unused slabs are kept already. */
  predicate Destroys(empty: seq<nat>, unused: bool) {
    unused && |empty| >= MAX_EMPTY
  }

  ghost predicate PutListsOk(g: Geo, inuse: map<nat, nat>, partial: seq<nat>, empty: seq<nat>, b: nat)
    requires b in inuse && inuse[b] > 0
  {
    var unused, wasFull := inuse[b] == 1, inuse[b] == g.objs;
    var inuse' := if Destroys(empty, unused) then inuse - {b} else inuse[b := inuse[b] - 1];
    ListsOk(g, inuse', PutPartial(partial, b, wasFull, unused), PutEmpty(empty, b, unused), {})
  }

  /** With one object to a slab no slab is partly used. */
  lemma NonePartial(g: Geo, inuse: map<nat, nat>, partial: seq<nat>, empty: seq<nat>, off: set<nat>)
    requires g.objs == 1 && partial != []
    ensures !ListsOk(g, inuse, partial, empty, off)
  {
    assert partial[0] in partial;
  }

  /** `slab_put` keeps the lists right exactly when a slab holds at least two objects. */
  lemma PutLists(g: Geo, inuse: map<nat, nat>, partial: seq<nat>, empty: seq<nat>, b: nat)
    requires ListsOk(g, inuse, partial, empty, {}) && b in inuse && 0 < inuse[b] <= g.objs
    ensures PutListsOk(g, inuse, partial, empty, b) <==> g.objs >= 2
  {
    var unused, wasFull := inuse[b] == 1, inuse[b] == g.objs;
    assert b !in empty && (b in partial <==> !wasFull);
    RemoveDistinct(partial, b);
    var p := PutPartial(partial, b, wasFull, unused);
    if g.objs == 1 { assert b in p; }
  }

  /** Taking the head off either list. */
  lemma TakePartial(g: Geo, fl: FreeLists, inuse: map<nat, nat>, partial: seq<nat>, empty: seq<nat>)
    requires SlabsOk(g, fl, inuse) && ListsOk(g, inuse, partial, empty, {}) && partial != []
    ensures partial[0] in fl && fl[partial[0]] != [] && ListsOk(g, inuse, partial[1..], empty, {partial[0]})
  {
    var b := partial[0];
    TailDistinct(partial);
    assert b in partial && SlabOk(g, b, fl[b], inuse[b]);
    forall x: nat ensures x in partial[1..] <==> x in inuse && x !in {b} && 0 < inuse[x] < g.objs {
      assert x in partial <==> x in inuse && 0 < inuse[x] < g.objs;
    }
  }

  lemma TakeEmpty(g: Geo, fl: FreeLists, inuse: map<nat, nat>, partial: seq<nat>, empty: seq<nat>)
    requires SlabsOk(g, fl, inuse) && ListsOk(g, inuse, partial, empty, {}) && empty != [] && g.objs > 0
    ensures empty[0] in fl && fl[empty[0]] != [] && ListsOk(g, inuse, partial, empty[1..], {empty[0]})
  {
    var b := empty[0];
    TailDistinct(empty);
    assert b in empty && SlabOk(g, b, fl[b], inuse[b]);
    forall x: nat ensures x in empty[1..] <==> x in inuse && x !in {b} && inuse[x] == 0 {
      assert x in empty <==> x in inuse && inuse[x] == 0;
    }
  }

  /** A slab that is off the lists may change, or appear. */
  lemma ChangeOff(g: Geo, inuse: map<nat, nat>, partial: seq<nat>, empty: seq<nat>, b: nat, n: nat, off: set<nat>)
    requires ListsOk(g, inuse, partial, empty, off) && (off == {b} || (off == {} && b !in inuse))
    ensures ListsOk(g, inuse[b := n], partial, empty, {b})
  {
  }

  /** Back on the list of partly used slabs, unless it is full. */
  lemma BackOn(g: Geo, inuse: map<nat, nat>, partial: seq<nat>, empty: seq<nat>, b: nat)
    requires ListsOk(g, inuse, partial, empty, {b}) && b in inuse && 0 < inuse[b] <= g.objs
    ensures ListsOk(g, inuse, if inuse[b] < g.objs then [b] + partial else partial, empty, {})
  {
    var p := if inuse[b] < g.objs then [b] + partial else partial;
    assert b !in partial && Distinct(p);
    forall x: nat ensures x in p <==> x in inuse && 0 < inuse[x] < g.objs {
      assert x in partial <==> x in inuse && x !in {b} && 0 < inuse[x] < g.objs;
    }
    forall x: nat ensures x in empty <==> x in inuse && inuse[x] == 0 {
      assert x in empty <==> x in inuse && x !in {b} && inuse[x] == 0;
    }
  }

  /** The slab a refill takes from: a partly used one, else an unused one, else a new one. */
  function Source(partial: seq<nat>, empty: seq<nat>, block: Option<nat>): nat
    requires partial != [] || empty != [] || block.Some?
  {
    if partial != [] then partial[0] else if empty != [] then empty[0] else block.value
  }

  /** How many objects a refill takes from a slab with this free list. */
  function Refills(fl: seq<nat>): nat {
    if |fl| < MAG_SIZE then |fl| else MAG_SIZE
  }

  /** No caller's object changes hands. */
  ghost predicate OutSame(place: map<nat, Place>, place': map<nat, Place>) {
    forall o: nat {:trigger HasOut(place', o)} :: HasOut(place, o) <==> HasOut(place', o)
  }

  /** Exactly object `o` went to a caller, or came back. */
  ghost predicate OutPlus(place: map<nat, Place>, place': map<nat, Place>, o: nat) {
    !HasOut(place, o) && forall x: nat {:trigger HasOut(place', x)} :: HasOut(place', x) <==> HasOut(place, x) || x == o
  }

  ghost predicate OutMinus(place: map<nat, Place>, place': map<nat, Place>, o: nat) {
    forall x: nat {:trigger HasOut(place', x)} :: HasOut(place', x) <==> HasOut(place, x) && x != o
  }

  ghost predicate HasOut(place: map<nat, Place>, o: nat) {
    o in place && place[o] == Out
  }

  lemma OutStays(place: map<nat, Place>, place': map<nat, Place>, o: nat)
    requires OutSame(place, place') && HasOut(place, o)
    ensures HasOut(place', o)
  {
    assert HasOut(place, o) <==> HasOut(place', o);
  }

  lemma OutChain(a: map<nat, Place>, b: map<nat, Place>, c: map<nat, Place>, o: nat)
    requires OutSame(a, b) && OutMinus(b, c, o)
    ensures OutMinus(a, c, o)
  {
    forall x: nat ensures HasOut(c, x) <==> HasOut(a, x) && x != o { assert HasOut(a, x) <==> HasOut(b, x); }
  }

  /** `struct kmem_cache` */
  class Cache {
    const g: Geo
    var freelist: FreeLists
    var inuse: map<nat, nat>
    var partial: seq<nat>
    var empty: seq<nat>
    var mags: seq<seq<nat>>
    ghost var place: map<nat, Place>

    constructor (g: Geo, cpus: nat)
      ensures this.g == g && mags == seq(cpus, _ => []) && place == map[] && freelist == map[]
      ensures GeoOk(g) && g.objs > 0 ==> Valid()
    {
      this.g := g;
      freelist, inuse, partial, empty, place := map[], map[], [], [], map[];
      mags := seq(cpus, _ => []);
    }

    /** All but the lists of slabs. */
    ghost predicate Core()
      reads this
    {
      GeoOk(g) && g.objs > 0 && SlabsOk(g, freelist, inuse) && PlacesOk(g, freelist, mags, place)
    }

    ghost predicate Valid()
      reads this
    {
      Core() && ListsOk(g, inuse, partial, empty, {})
    }

    /** The first slab of the list of partly used ones is none of the cache's slabs any more. */
    predicate HeadGone()
      reads this`partial, this`freelist
    {
      partial != [] && partial[0] !in freelist
    }

    /** All objects of a new slab, chained so that the last comes first. */
    method Carve(b: nat) returns (fl: seq<nat>)
      ensures fl == AllObjs(g, b, g.objs)
    {
      fl := [];
      for i := 0 to g.objs
        invariant fl == AllObjs(g, b, i)
      {
        fl := [Obj(g, b, i)] + fl;
      }
    }

    /** `slab_create` on the block `b` from the page allocator. */
    method Create(b: nat)
      requires Valid() && Aligned(b, g.shift) && b !in freelist
      modifies this`freelist, this`inuse, this`place
      ensures Core() && ListsOk(g, inuse, partial, empty, {b})
      ensures freelist.Keys == old(freelist.Keys) + {b} && |freelist[b]| == g.objs
      ensures OutSame(old(place), place)
    {
      var objs := Carve(b);
      NewSlab(g, freelist, inuse, mags, place, b, objs);
      ChangeOff(g, inuse, partial, empty, b, 0, {});
      forall o: nat ensures HasOut(place, o) <==> HasOut(WithFree(place, objs), o) {
        AllObjsOk(g, b);
        if o in objs { SlabOfObj(g, b, o); assert o in place ==> Known(g, freelist, o); }
      }
      place := WithFree(place, objs);
      freelist, inuse := freelist[b := objs], inuse[b := 0];
    }

    /** A refill needs a block for a new slab. */
    predicate NeedsBlock(cpu: nat)
      reads this
      requires cpu < |mags|
    {
      mags[cpu] == [] && partial == [] && empty == []
    }

    /** The block is good for a new slab. */
    ghost predicate Suits(block: Option<nat>)
      reads this
    {
      block.Some? ==> Aligned(block.value, g.shift) && block.value !in freelist
    }

    /** The slab to refill from, taken off its list: a partly used one, else an unused one, else a new one on `block`. */
    method PickSlab(block: Option<nat>) returns (r: Option<nat>)
      requires Valid() && Suits(block) && (block.Some? ==> partial == [] && empty == [])
      modifies this`freelist, this`inuse, this`partial, this`empty, this`place
      ensures Core()
      ensures r.None? <==> old(partial) == [] && old(empty) == [] && block.None?
      ensures r.None? ==> Valid()
      ensures r.Some? ==> ListsOk(g, inuse, partial, empty, {r.value})
      ensures r.Some? ==> r.value in freelist && freelist[r.value] != []
      ensures r.Some? ==> r.value == Source(old(partial), old(empty), block)
      ensures if block.Some? then freelist.Keys == old(freelist.Keys) + {block.value} && |freelist[block.value]| == g.objs
              else freelist == old(freelist)
      ensures OutSame(old(place), place)
    {
      if partial != [] {
        TakePartial(g, freelist, inuse, partial, empty);
        r := Some(partial[0]);
        partial := partial[1..];
      } else if empty != [] {
        TakeEmpty(g, freelist, inuse, partial, empty);
        r := Some(empty[0]);
        empty := empty[1..];
      } else if block.Some? {
        Create(block.value);
        r := block;
      } else {
        r := None;
      }
    }

    /** Moves one free object of slab `b`, which is off the lists, to a magazine. */
    method DrainOne(cpu: nat, b: nat)
      requires Core() && ListsOk(g, inuse, partial, empty, {b})
      requires b in freelist && freelist[b] != [] && cpu < |mags| && |mags[cpu]| < MAG_SIZE
      modifies this`freelist, this`inuse, this`mags, this`place
      ensures Core() && ListsOk(g, inuse, partial, empty, {b})
      ensures freelist == old(freelist)[b := old(freelist)[b][1..]]
      ensures inuse[b] > 0 && |mags| == old(|mags|) && |mags[cpu]| == old(|mags[cpu]|) + 1
      ensures OutSame(old(place), place)
    {
      TakeOne(g, freelist, inuse, mags, place, b, cpu);
      ChangeOff(g, inuse, partial, empty, b, inuse[b] + 1, {b});
      var o := freelist[b][0];
      freelist, inuse, mags := freelist[b := freelist[b][1..]], inuse[b := inuse[b] + 1], mags[cpu := mags[cpu] + [o]];
      place := place[o := Mag(cpu)];
    }

    /** Fills an empty magazine from slab `b`, as far as that goes. */
    method Drain(cpu: nat, b: nat)
      requires Core() && ListsOk(g, inuse, partial, empty, {b})
      requires b in freelist && freelist[b] != [] && cpu < |mags| && mags[cpu] == []
      modifies this`freelist, this`inuse, this`mags, this`place
      ensures Core() && ListsOk(g, inuse, partial, empty, {b})
      ensures freelist.Keys == old(freelist.Keys) && inuse[b] > 0 && |mags| == old(|mags|)
      ensures |mags[cpu]| == Refills(old(freelist)[b])
      ensures OutSame(old(place), place)
    {
      var moved := 0;
      while moved < MAG_SIZE && freelist[b] != []
        invariant Core() && ListsOk(g, inuse, partial, empty, {b})
        invariant freelist.Keys == old(freelist.Keys) && |mags| == old(|mags|) && moved == |mags[cpu]| <= MAG_SIZE
        invariant moved > 0 ==> inuse[b] > 0
        invariant moved + |freelist[b]| == |old(freelist)[b]|
        invariant OutSame(old(place), place)
        decreases MAG_SIZE - moved
      {
        DrainOne(cpu, b);
        moved := moved + 1;
      }
    }

    /** `slab_refill` of a CPU's empty magazine. */
    method Refill(cpu: nat, block: Option<nat>) returns (ok: bool)
      requires Valid() && cpu < |mags| && mags[cpu] == [] && Suits(block) && (block.Some? ==> NeedsBlock(cpu))
      modifies this
      ensures Valid() && |mags| == old(|mags|)
      ensures ok <==> old(partial) != [] || old(empty) != [] || block.Some?
      ensures ok ==> 0 < |mags[cpu]| <= g.objs
      ensures freelist.Keys == Plus(old(freelist.Keys), block)
      ensures ok && block.None? ==>
        var b := Source(old(partial), old(empty), block);
        b in old(freelist) && |mags[cpu]| == Refills(old(freelist)[b])
      ensures block.Some? ==> |mags[cpu]| == if g.objs < MAG_SIZE then g.objs else MAG_SIZE
      ensures OutSame(old(place), place)
    {
      var picked := PickSlab(block);
      if picked == None { return false; }
      var b := picked.value;
      assert SlabOk(g, b, freelist[b], inuse[b]);
      Drain(cpu, b);
      assert SlabOk(g, b, freelist[b], inuse[b]);
      BackOn(g, inuse, partial, empty, b);
      if inuse[b] < g.objs { partial := [b] + partial; }
      return true;
    }

    /** Moves the object on top of a magazine to the free list of its slab `b`. */
    method ReturnTop(cpu: nat) returns (b: nat)
      requires Core() && cpu < |mags| && mags[cpu] != []
      modifies this`freelist, this`inuse, this`mags, this`place
      ensures Core() && freelist.Keys == old(freelist.Keys)
      ensures b in old(inuse) && 0 < old(inuse)[b] <= g.objs && inuse == old(inuse)[b := old(inuse)[b] - 1]
      ensures mags == old(mags)[cpu := old(mags[cpu])[..|old(mags[cpu])| - 1]]
      ensures OutSame(old(place), place)
    {
      var k := |mags[cpu]| - 1;
      var o := mags[cpu][k];
      b := SlabOf(g, o);
      PutOne(g, freelist, inuse, mags, place, cpu);
      assert SlabOk(g, b, freelist[b], inuse[b]);
      assert o in mags[cpu] && place[o] == Mag(cpu);
      freelist, inuse, mags := freelist[b := [o] + freelist[b]], inuse[b := inuse[b] - 1], mags[cpu := mags[cpu][..k]];
      place := place[o := Free];
    }

    /** The slab leaves the cache with its objects, all of them on its own free list. */
    method Drop(b: nat)
      requires Core() && b in inuse && inuse[b] == 0
      modifies this`freelist, this`inuse, this`place
      ensures Core() && inuse == old(inuse) - {b} && freelist.Keys == old(freelist.Keys) - {b}
      ensures forall o: nat :: o in old(place) ==> if SlabOf(g, o) == b then old(place)[o] == Free && o !in place
                                                   else o in place && place[o] == old(place)[o]
      ensures OutSame(old(place), place)
    {
      DropSlab(g, freelist, inuse, mags, place, b);
      place := WithoutSlab(g, place, b);
      freelist, inuse := freelist - {b}, inuse - {b};
    }

    /**
     `slab_put` of the object on top of a CPU's magazine; a slab that is not kept is dropped and returned.
     The lists stay right if slabs hold two objects or more.
     */
    method PutLast(cpu: nat) returns (gone: Option<nat>)
      requires Core() && (g.objs >= 2 ==> Valid()) && cpu < |mags| && mags[cpu] != []
      modifies this
      ensures Core() && if g.objs >= 2 then Valid() else partial != []
      ensures mags == old(mags)[cpu := old(mags[cpu])[..|old(mags[cpu])| - 1]]
      ensures gone.Some? ==> gone.value in old(freelist)
      ensures g.objs == 1 ==> if |old(empty)| < MAX_EMPTY then |empty| == |old(empty)| + 1 else |empty| == |old(empty)| && HeadGone()
      ensures freelist.Keys == old(freelist.Keys) - if gone.Some? then {gone.value} else {}
      ensures OutSame(old(place), place)
    {
      ghost var inuse0, partial0, empty0 := inuse, partial, empty;
      var b := ReturnTop(cpu);
      if g.objs >= 2 { PutLists(g, inuse0, partial0, empty0, b); }
      var wasFull, unused := inuse[b] + 1 == g.objs, inuse[b] == 0;
      gone := None;
      if Destroys(empty, unused) {
        Drop(b);
        assert inuse == inuse0 - {b};
        gone := Some(b);
      }
      partial, empty := PutPartial(partial, b, wasFull, unused), PutEmpty(empty, b, unused);
    }

    /** Hands out the object on top of a magazine. */
    method Pop(cpu: nat) returns (o: nat)
      requires Valid() && cpu < |mags| && mags[cpu] != []
      modifies this`mags, this`place
      ensures Valid() && |mags| == old(|mags|) && |mags[cpu]| == old(|mags[cpu]|) - 1
      ensures Known(g, freelist, o) && OutPlus(old(place), place, o)
    {
      HandOut(g, freelist, mags, place, cpu);
      var k := |mags[cpu]| - 1;
      o := mags[cpu][k];
      mags := mags[cpu := mags[cpu][..k]];
      place := place[o := Out];
      assert o in place;
    }

    /** `kmem_cache_alloc`, with a block for a new slab if one is needed and there is one. */
    method Alloc(cpu: nat, block: Option<nat>) returns (r: Option<nat>)
      requires Valid() && cpu < |mags| && Suits(block) && (block.Some? ==> NeedsBlock(cpu))
      modifies this
      ensures Valid() && |mags| == old(|mags|)
      ensures r.None? <==> old(NeedsBlock(cpu)) && block.None?
      ensures r.Some? && old(mags[cpu]) == [] ==> |mags[cpu]| < g.objs
      ensures r.None? ==> OutSame(old(place), place)
      ensures r.Some? ==> Known(g, freelist, r.value) && OutPlus(old(place), place, r.value)
      ensures freelist.Keys == Plus(old(freelist.Keys), block)
    {
      if mags[cpu] == [] {
        var ok := Refill(cpu, block);
        if !ok { return None; }
      }
      ghost var place1 := place;
      var o := Pop(cpu);
      assert HasOut(old(place), o) <==> HasOut(place1, o);
      return Some(o);
    }

    /** Takes an object back into a magazine; `was` says where objects were before room was made. */
    method Push(cpu: nat, o: nat, ghost was: map<nat, Place>)
      requires Core() && cpu < |mags| && |mags[cpu]| < MAG_SIZE && HasOut(was, o) && OutSame(was, place)
      modifies this`mags, this`place
      ensures Core() && |mags| == old(|mags|) && |mags[cpu]| == old(|mags[cpu]|) + 1 && OutMinus(was, place, o)
      ensures Valid() <==> old(Valid())
    {
      OutStays(was, place, o);
      HandIn(g, freelist, mags, place, cpu, o);
      mags := mags[cpu := mags[cpu] + [o]];
      place := place[o := Mag(cpu)];
      OutChain(was, old(place), place, o);
    }
  }
}
