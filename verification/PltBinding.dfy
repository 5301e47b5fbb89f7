// Lazy and eager binding of the procedure linkage table by the user space dynamic
// linker, bin/linkd/reloc.c, with its symbol lookup, bin/linkd/library.c.

module PltBinding {
  import opened Common
  import opened SymbolTable
  import opened DependencySearch

  const WORDS: nat := 0x1_0000_0000

  // An R_386_JMP_SLOT relocation: the slot's offset and the symbol's number.
  datatype Relocation = Relocation(offset: nat, symnum: nat)

  // A loaded library: number `self` of `libs`, with the main program at `main`.
  datatype Image = Image(libs: seq<Library>, main: nat, self: nat, entries: seq<Relocation>)

  type Memory = map<nat, nat>

  ghost predicate WellFormedImage(img: Image) {
    && AllWellFormed(img.libs) && Closed(img.libs)
    && img.main < |img.libs| && img.self < |img.libs|
    && forall i :: 0 <= i < |img.entries| ==> img.entries[i].symnum < |img.libs[img.self].symtab|
  }

  function Slot(img: Image, i: nat): nat
    requires i < |img.entries| && img.self < |img.libs|
  {
    (img.libs[img.self].base + img.entries[i].offset) % WORDS
  }

  // The main program comes first, then the direct dependencies in order, then the
  // library itself.
  ghost function SearchOrder(img: Image): seq<nat>
    requires WellFormedImage(img)
  {
    [img.main] + img.libs[img.self].needed + [img.self]
  }

  ghost function Found(img: Image, symnum: nat, hash: string -> nat): Option<Origin>
    requires WellFormedImage(img) && symnum < |img.libs[img.self].symtab|
  {
    var lookup := img.libs[img.self].symtab[symnum];
    if lookup.local then Some(FromLibrary(img.self, symnum))
    else Provider(img.libs, SearchOrder(img), lookup.name, hash(lookup.name))
  }

  // The name has no offer among the main program, the direct dependencies and the
  // library itself.
  ghost predicate NobodyOffers(img: Image, name: string, hash: nat)
    requires WellFormedImage(img)
  {
    && Offer(img.libs, img.main, name, hash).None? && Offer(img.libs, img.self, name, hash).None?
    && forall k :: 0 <= k < |img.libs[img.self].needed| ==>
      Offer(img.libs, img.libs[img.self].needed[k], name, hash).None?
  }

  // The k-th direct dependency is the first with an offer.
  ghost predicate FirstNeeded(img: Image, name: string, hash: nat, k: nat)
    requires WellFormedImage(img)
  {
    var needed := img.libs[img.self].needed;
    && k < |needed| && Offer(img.libs, needed[k], name, hash).Some?
    && forall j :: 0 <= j < k ==> Offer(img.libs, needed[j], name, hash).None?
  }

  // Symbol s of library x is meant: the symbol itself if it is local, else the offer of
  // the main program, without one that of the first direct dependency with an offer, and
  // without any that of the library itself.
  ghost predicate Meant(img: Image, symnum: nat, hash: string -> nat, x: nat, s: nat)
    requires WellFormedImage(img) && symnum < |img.libs[img.self].symtab|
  {
    var lookup, needed := img.libs[img.self].symtab[symnum], img.libs[img.self].needed;
    var h := hash(lookup.name);
    var main := Offer(img.libs, img.main, lookup.name, h);
    if lookup.local then x == img.self && s == symnum
    else
      && Offer(img.libs, x, lookup.name, h) == Some(s)
      && (main.Some? ==> x == img.main)
      && (main.None? && (exists k: nat :: FirstNeeded(img, lookup.name, h, k)) ==>
          exists k: nat :: FirstNeeded(img, lookup.name, h, k) && x == needed[k])
      && (main.None? && (forall k: nat :: !FirstNeeded(img, lookup.name, h, k)) ==> x == img.self)
  }

  // What the search comes to.
  lemma FoundIsMeant(img: Image, symnum: nat, hash: string -> nat)
    requires WellFormedImage(img) && symnum < |img.libs[img.self].symtab|
    ensures var lookup, r := img.libs[img.self].symtab[symnum], Found(img, symnum, hash);
      && (r.None? <==> !lookup.local && NobodyOffers(img, lookup.name, hash(lookup.name)))
      && (r.Some? ==> r.value.FromLibrary? && Meant(img, symnum, hash, r.value.library, r.value.symbol))
  {
    var lookup, needed := img.libs[img.self].symtab[symnum], img.libs[img.self].needed;
    if !lookup.local {
      var h, order := hash(lookup.name), SearchOrder(img);
      Places(img, order);
      ProviderNone(img.libs, order, lookup.name, h);
      if Found(img, symnum, hash).Some? {
        var n := ProviderFirst(img.libs, order, lookup.name, h, 0);
        PlaceIsMeant(img, symnum, hash, order, n);
      } else {
        forall k | 0 <= k < |needed| ensures Offer(img.libs, needed[k], lookup.name, h).None? {
          assert Offer(img.libs, order[k + 1], lookup.name, h).None?;
        }
      }
    }
  }

  lemma Places(img: Image, order: seq<nat>)
    requires WellFormedImage(img) && order == SearchOrder(img)
    ensures |order| == |img.libs[img.self].needed| + 2 && order[0] == img.main && order[|order| - 1] == img.self
    ensures forall k {:trigger img.libs[img.self].needed[k]} :: 0 <= k < |img.libs[img.self].needed| ==>
      order[k + 1] == img.libs[img.self].needed[k]
  {
  }

  lemma PlaceIsMeant(img: Image, symnum: nat, hash: string -> nat, order: seq<nat>, n: nat)
    requires WellFormedImage(img) && symnum < |img.libs[img.self].symtab| && !img.libs[img.self].symtab[symnum].local
    requires order == SearchOrder(img) && n < |order|
    requires var name := img.libs[img.self].symtab[symnum].name;
      && Offer(img.libs, order[n], name, hash(name)).Some?
      && forall i :: 0 <= i < n ==> Offer(img.libs, order[i], name, hash(name)).None?
    ensures var name := img.libs[img.self].symtab[symnum].name;
      Meant(img, symnum, hash, order[n], Offer(img.libs, order[n], name, hash(name)).value)
  {
    var lookup, needed := img.libs[img.self].symtab[symnum], img.libs[img.self].needed;
    var h := hash(lookup.name);
    Places(img, order);
    if n > 0 {
      assert Offer(img.libs, order[0], lookup.name, h).None?;
      forall k | 0 <= k < n - 1 && k < |needed| ensures Offer(img.libs, needed[k], lookup.name, h).None? {
        assert Offer(img.libs, order[k + 1], lookup.name, h).None?;
      }
      if n <= |needed| {
        NeededIsMeant(img, symnum, hash, n - 1);
      }
    }
  }

  lemma NeededIsMeant(img: Image, symnum: nat, hash: string -> nat, k: nat)
    requires WellFormedImage(img) && symnum < |img.libs[img.self].symtab| && !img.libs[img.self].symtab[symnum].local
    requires var name := img.libs[img.self].symtab[symnum].name;
      Offer(img.libs, img.main, name, hash(name)).None? && FirstNeeded(img, name, hash(name), k)
    ensures var name, x := img.libs[img.self].symtab[symnum].name, img.libs[img.self].needed[k];
      Meant(img, symnum, hash, x, Offer(img.libs, x, name, hash(name)).value)
  {
  }

  // The address that entry i stands for: where the library that has the symbol meant
  // was loaded, plus the symbol's value.
  ghost predicate StandsFor(img: Image, i: nat, hash: string -> nat, address: nat)
    requires WellFormedImage(img) && i < |img.entries|
  {
    exists x: nat, s: nat :: Meant(img, img.entries[i].symnum, hash, x, s) && AddressOf(img, x, s) == Some(address)
  }

  ghost function AddressOf(img: Image, x: nat, s: nat): Option<nat> {
    if x < |img.libs| && s < |img.libs[x].symtab| then
      Some((img.libs[x].base + img.libs[x].symtab[s].value) % 0x1_0000_0000)
    else None
  }

  // Entry i stands for nothing.
  ghost predicate Dangles(img: Image, i: nat, hash: string -> nat)
    requires WellFormedImage(img) && i < |img.entries|
  {
    var lookup := img.libs[img.self].symtab[img.entries[i].symnum];
    !lookup.local && NobodyOffers(img, lookup.name, hash(lookup.name))
  }

  // Entry i is relocated: its slot gets the address it stands for, and nothing happens
  // without one.
  ghost predicate Relocated(img: Image, i: nat, hash: string -> nat, before: Memory, r: Option<nat>, after: Memory)
    requires WellFormedImage(img) && i < |img.entries|
  {
    if Dangles(img, i, hash) then r.None? && after == before
    else
      && r.Some? && StandsFor(img, i, hash, r.value)
      && after == before[(img.libs[img.self].base + img.entries[i].offset) % 0x1_0000_0000 := r.value]
  }

  lemma TargetStandsFor(img: Image, i: nat, hash: string -> nat)
    requires WellFormedImage(img) && i < |img.entries|
    ensures Target(img, i, hash).None? <==> Dangles(img, i, hash)
    ensures Target(img, i, hash).Some? ==> StandsFor(img, i, hash, Target(img, i, hash).value)
  {
    FoundIsMeant(img, img.entries[i].symnum, hash);
    var found := Found(img, img.entries[i].symnum, hash);
    if found.Some? {
      FoundInRange(img, img.entries[i].symnum, hash);
      assert Meant(img, img.entries[i].symnum, hash, found.value.library, found.value.symbol);
    }
  }

  lemma FoundInRange(img: Image, symnum: nat, hash: string -> nat)
    requires WellFormedImage(img) && symnum < |img.libs[img.self].symtab|
    requires Found(img, symnum, hash).Some?
    ensures var o := Found(img, symnum, hash).value;
      o.FromLibrary? && o.library < |img.libs| && o.symbol < |img.libs[o.library].symtab|
  {
    var lookup := img.libs[img.self].symtab[symnum];
    ProviderNone(img.libs, SearchOrder(img), lookup.name, hash(lookup.name));
  }

  // library_lookupSymbol().
  method FindSymbol(img: Image, symnum: nat, hash: string -> nat) returns (r: Option<Origin>)
    requires WellFormedImage(img) && symnum < |img.libs[img.self].symtab|
    ensures r == Found(img, symnum, hash)
    ensures var lookup := img.libs[img.self].symtab[symnum];
      r.None? <==> !lookup.local && NobodyOffers(img, lookup.name, hash(lookup.name))
    ensures r.Some? ==> r.value.FromLibrary? && Meant(img, symnum, hash, r.value.library, r.value.symbol)
  {
    FoundIsMeant(img, symnum, hash);
    var lookup := img.libs[img.self].symtab[symnum];
    if lookup.local {
      return Some(FromLibrary(img.self, symnum));
    }
    var h := hash(lookup.name);
    ghost var order := SearchOrder(img);
    var s := OfferOf(img.libs, img.main, lookup.name, h);
    if s.Some? {
      return Some(FromLibrary(img.main, s.value));
    }
    assert order[..1] == [img.main];
    var needed := img.libs[img.self].needed;
    assert Within(needed, |img.libs|);
    for k := 0 to |needed|
      invariant NoneOffers(img.libs, order[..k + 1], lookup.name, h)
    {
      s := OfferOf(img.libs, needed[k], lookup.name, h);
      assert order[k + 1] == needed[k];
      if s.Some? {
        assert order[..k + 1] + [needed[k]] <= order;
        FirstOffer(img.libs, order, order[..k + 1], needed[k], lookup.name, h);
        return Some(FromLibrary(needed[k], s.value));
      }
      assert order[..k + 2] == order[..k + 1] + [needed[k]];
    }
    var n := |needed|;
    assert order == order[..n + 1] + [img.self];
    ProviderAfter(img.libs, order[..n + 1], [img.self], lookup.name, h);
    s := OfferOf(img.libs, img.self, lookup.name, h);
    assert ProviderFrom(img.libs, [img.self], lookup.name, h, 1).None?;
    return if s.Some? then Some(FromLibrary(img.self, s.value)) else None;
  }

  // The address an entry resolves to.
  ghost function Target(img: Image, i: nat, hash: string -> nat): Option<nat>
    requires WellFormedImage(img) && i < |img.entries|
  {
    var found := Found(img, img.entries[i].symnum, hash);
    if found.None? then None else
      FoundInRange(img, img.entries[i].symnum, hash);
      Some((img.libs[found.value.library].base +
            img.libs[found.value.library].symtab[found.value.symbol].value) % WORDS)
  }

  ghost predicate Resolved(img: Image, hash: string -> nat)
    requires WellFormedImage(img)
  {
    HaveTargets(img, hash, |img.entries|)
  }

  ghost predicate HaveTargets(img: Image, hash: string -> nat, n: nat)
    requires WellFormedImage(img) && n <= |img.entries|
  {
    forall i :: 0 <= i < n ==> Target(img, i, hash).Some?
  }

  // Entries with a common slot agree on its target.
  ghost predicate Consistent(img: Image, hash: string -> nat)
    requires WellFormedImage(img)
  {
    forall i, j :: 0 <= i < |img.entries| && 0 <= j < |img.entries| && Slot(img, i) == Slot(img, j) ==>
      Target(img, i, hash) == Target(img, j, hash)
  }

  // ---- Runs of the binder ----

  ghost predicate Order(img: Image, order: seq<nat>) {
    forall k :: 0 <= k < |order| ==> order[k] < |img.entries|
  }

  ghost function BindOne(img: Image, m: Memory, i: nat, hash: string -> nat): Memory
    requires WellFormedImage(img) && i < |img.entries|
  {
    if Target(img, i, hash).Some? then m[Slot(img, i) := Target(img, i, hash).value] else m
  }

  ghost function BoundMemory(img: Image, m: Memory, order: seq<nat>, hash: string -> nat): Memory
    requires WellFormedImage(img) && Order(img, order)
  {
    if order == [] then m else BindOne(img, BoundMemory(img, m, order[..|order| - 1], hash), order[|order| - 1], hash)
  }

  ghost function Ascending(n: nat): seq<nat> {
    seq(n, i => i)
  }

  // The first n entries bound in order.
  ghost function Eager(img: Image, m: Memory, n: nat, hash: string -> nat): Memory
    requires WellFormedImage(img) && n <= |img.entries|
  {
    if n == 0 then m else BindOne(img, Eager(img, m, n - 1, hash), n - 1, hash)
  }

  lemma EagerStep(img: Image, m: Memory, now: Memory, n: nat, hash: string -> nat)
    requires WellFormedImage(img) && n < |img.entries| && now == Eager(img, m, n, hash)
    ensures Eager(img, m, n + 1, hash) == BindOne(img, now, n, hash)
    ensures Target(img, n, hash).None? ==> BindOne(img, now, n, hash) == now
  {
  }

  lemma {:induction false} EagerIsBound(img: Image, m: Memory, n: nat, hash: string -> nat)
    requires WellFormedImage(img) && n <= |img.entries|
    ensures Eager(img, m, n, hash) == BoundMemory(img, m, Ascending(n), hash)
  {
    if n > 0 {
      EagerIsBound(img, m, n - 1, hash);
      assert Ascending(n)[..n - 1] == Ascending(n - 1);
    }
  }

  ghost function Lazy(img: Image, m: Memory, n: nat): Memory
    requires n <= |img.entries| && img.self < |img.libs|
  {
    if n == 0 then m
    else
      var before := Lazy(img, m, n - 1);
      var a := Slot(img, n - 1);
      if a in before then before[a := (before[a] + img.libs[img.self].base) % WORDS] else before
  }

  class Linker {
    const img: Image
    const hash: string -> nat
    var memory: Memory

    ghost predicate Valid() reads this {
      && WellFormedImage(img)
      && forall i :: 0 <= i < |img.entries| ==> Slot(img, i) in memory
    }

    // library_relocatePLTEntry().
    method RelocateEntry(i: nat) returns (r: Option<nat>)
      requires Valid() && i < |img.entries|
      modifies this
      ensures Valid()
      ensures r == Target(img, i, hash)
      ensures memory == BindOne(img, old(memory), i, hash)
      ensures Relocated(img, i, hash, old(memory), r, memory)
      ensures memory.Keys == old(memory).Keys
    {
      TargetStandsFor(img, i, hash);
      var rel := img.entries[i];
      var found := FindSymbol(img, rel.symnum, hash);
      if found.None? {
        return None;
      }
      FoundInRange(img, rel.symnum, hash);
      var container := img.libs[found.value.library];
      var target := (container.base + container.symtab[found.value.symbol].value) % WORDS;
      memory := memory[Slot(img, i) := target];
      return Some(target);
    }

    // library_bind(), called by the stub of an entry; without a target the program
    // is ended.
    method Bind(i: nat) returns (r: Option<nat>)
      requires Valid() && i < |img.entries|
      modifies this
      ensures Valid()
      ensures r == Target(img, i, hash) && Relocated(img, i, hash, old(memory), r, memory)
    {
      r := RelocateEntry(i);
    }

    method RelocateNext(i: nat, ghost before: Memory) returns (bound: bool)
      requires Valid() && i < |img.entries| && memory == Eager(img, before, i, hash)
      modifies this
      ensures Valid() && (bound <==> Target(img, i, hash).Some?)
      ensures memory == Eager(img, before, if bound then i + 1 else i, hash)
    {
      EagerStep(img, before, memory, i, hash);
      var r := RelocateEntry(i);
      bound := r.Some?;
    }

    // library_relocatePLT(); `done` entries are bound.
    method RelocateEagerly() returns (ok: bool, ghost done: nat)
      requires Valid()
      modifies this
      ensures Valid() && done <= |img.entries|
      ensures memory == Eager(img, old(memory), done, hash)
      ensures HaveTargets(img, hash, done)
      ensures if ok then done == |img.entries| else done < |img.entries| && Target(img, done, hash).None?
    {
      ghost var before := memory;
      var i: nat := 0;
      while i < |img.entries|
        invariant i <= |img.entries| && Valid()
        invariant memory == Eager(img, before, i, hash)
        invariant HaveTargets(img, hash, i)
      {
        var bound := RelocateNext(i, before);
        if !bound {
          return false, i;
        }
        i := i + 1;
      }
      return true, i;
    }

    // library_relocatePLTLazy().
    method RelocateLazily()
      requires Valid()
      modifies this
      ensures Valid()
      ensures memory == Lazy(img, old(memory), |img.entries|)
    {
      for i := 0 to |img.entries|
        invariant Valid()
        invariant memory == Lazy(img, old(memory), i)
      {
        var address := Slot(img, i);
        memory := memory[address := (memory[address] + img.libs[img.self].base) % WORDS];
      }
    }

    constructor (img: Image, hash: string -> nat, memory: Memory)
      requires WellFormedImage(img) && forall i :: 0 <= i < |img.entries| ==> Slot(img, i) in memory
      ensures Valid() && this.img == img && this.hash == hash && this.memory == memory
    {
      this.img, this.hash, this.memory := img, hash, memory;
    }
  }

  // ---- What a run leaves in memory ----

  ghost predicate Touches(img: Image, order: seq<nat>, a: nat)
    requires Order(img, order) && img.self < |img.libs|
  {
    exists k :: 0 <= k < |order| && Slot(img, order[k]) == a
  }

  ghost predicate Same(m: Memory, n: Memory, a: nat) {
    (a in m <==> a in n) && (a in m && a in n ==> m[a] == n[a])
  }

  lemma TouchesStep(img: Image, order: seq<nat>, a: nat)
    requires Order(img, order) && img.self < |img.libs| && order != []
    ensures Touches(img, order, a) <==> Touches(img, order[..|order| - 1], a) || Slot(img, order[|order| - 1]) == a
  {
    var init := order[..|order| - 1];
    if Touches(img, init, a) {
      var k :| 0 <= k < |init| && Slot(img, init[k]) == a;
      assert Slot(img, order[k]) == a;
    }
    if Touches(img, order, a) {
      var k :| 0 <= k < |order| && Slot(img, order[k]) == a;
      assert k < |init| ==> Slot(img, init[k]) == a;
    }
  }

  // A slot holds its target once one of its entries has been bound, and every other
  // word is as before, whatever the order and however often entries are bound.
  lemma {:induction false} BoundWord(img: Image, m: Memory, order: seq<nat>, a: nat, hash: string -> nat)
    requires WellFormedImage(img) && Order(img, order) && Resolved(img, hash) && Consistent(img, hash)
    ensures !Touches(img, order, a) ==> Same(BoundMemory(img, m, order, hash), m, a)
    ensures forall i :: 0 <= i < |img.entries| && Slot(img, i) == a && Touches(img, order, a) ==>
      a in BoundMemory(img, m, order, hash) && Some(BoundMemory(img, m, order, hash)[a]) == Target(img, i, hash)
  {
    if order != [] {
      var init, last := order[..|order| - 1], order[|order| - 1];
      BoundWord(img, m, init, a, hash);
      TouchesStep(img, order, a);
    }
  }

  lemma {:induction false} LazyWord(img: Image, m: Memory, n: nat, a: nat)
    requires n <= |img.entries| && img.self < |img.libs|
    requires forall i :: 0 <= i < n ==> Slot(img, i) != a
    ensures Same(Lazy(img, m, n), m, a)
  {
    if n > 0 {
      LazyWord(img, m, n - 1, a);
    }
  }

  lemma {:induction false} LazyKeys(img: Image, m: Memory, n: nat)
    requires n <= |img.entries| && img.self < |img.libs|
    ensures Lazy(img, m, n).Keys == m.Keys
  {
    if n > 0 {
      LazyKeys(img, m, n - 1);
    }
  }

  // When no two entries share a slot, every slot is moved by the base exactly once.
  lemma {:induction false} LazySlot(img: Image, m: Memory, n: nat, i: nat)
    requires i < n <= |img.entries| && img.self < |img.libs| && Slot(img, i) in m
    requires forall j, k :: 0 <= j < k < |img.entries| ==> Slot(img, j) != Slot(img, k)
    ensures Slot(img, i) in Lazy(img, m, n)
    ensures Lazy(img, m, n)[Slot(img, i)] == (m[Slot(img, i)] + img.libs[img.self].base) % WORDS
  {
    if i < n - 1 {
      LazySlot(img, m, n - 1, i);
    } else {
      LazyWord(img, m, n - 1, Slot(img, i));
    }
  }

  ghost predicate Covers(img: Image, order: seq<nat>) {
    Order(img, order) && forall i :: 0 <= i < |img.entries| ==> i in order
  }

  lemma CoversTouches(img: Image, order: seq<nat>, a: nat)
    requires WellFormedImage(img) && Covers(img, order)
    ensures Touches(img, order, a) <==> exists i :: 0 <= i < |img.entries| && Slot(img, i) == a
  {
    if i :| 0 <= i < |img.entries| && Slot(img, i) == a {
      assert i in order;
      var k :| 0 <= k < |order| && order[k] == i;
      assert Slot(img, order[k]) == a;
    }
  }

  lemma SameEverywhere(m: Memory, n: Memory)
    requires forall a: nat :: Same(m, n, a)
    ensures m == n
  {
    assert m.Keys == n.Keys by {
      assert forall a: nat :: a in m.Keys <==> a in n.Keys by {
        forall a: nat ensures a in m.Keys <==> a in n.Keys { assert Same(m, n, a); }
      }
    }
    forall a: nat | a in m ensures m[a] == n[a] { assert Same(m, n, a); }
  }

  lemma LazyThenBoundWord(img: Image, m: Memory, order: seq<nat>, a: nat, hash: string -> nat)
    requires WellFormedImage(img) && Resolved(img, hash) && Consistent(img, hash) && Covers(img, order)
    ensures Order(img, Ascending(|img.entries|))
    ensures Same(BoundMemory(img, Lazy(img, m, |img.entries|), order, hash),
                 BoundMemory(img, m, Ascending(|img.entries|), hash), a)
  {
    var n := |img.entries|;
    var lazy := Lazy(img, m, n);
    AscendingCovers(img);
    CoversTouches(img, order, a);
    CoversTouches(img, Ascending(n), a);
    BoundWord(img, lazy, order, a, hash);
    BoundWord(img, m, Ascending(n), a, hash);
    if !Touches(img, order, a) {
      LazyWord(img, m, n, a);
    }
  }

  lemma AscendingCovers(img: Image)
    ensures Covers(img, Ascending(|img.entries|))
  {
    forall i | 0 <= i < |img.entries| ensures i in Ascending(|img.entries|) {
      assert Ascending(|img.entries|)[i] == i;
    }
  }

  ghost predicate LazyMeetsEager(img: Image, m: Memory, order: seq<nat>, hash: string -> nat)
    requires WellFormedImage(img) && Covers(img, order)
  {
    BoundMemory(img, Lazy(img, m, |img.entries|), order, hash) == Eager(img, m, |img.entries|, hash)
  }

  lemma ConsistentMeets(img: Image, m: Memory, order: seq<nat>, hash: string -> nat)
    requires WellFormedImage(img) && Resolved(img, hash) && Consistent(img, hash) && Covers(img, order)
    ensures LazyMeetsEager(img, m, order, hash)
  {
    var n := |img.entries|;
    AscendingCovers(img);
    forall a: nat
      ensures Same(BoundMemory(img, Lazy(img, m, n), order, hash), BoundMemory(img, m, Ascending(n), hash), a)
    {
      LazyThenBoundWord(img, m, order, a, hash);
    }
    SameEverywhere(BoundMemory(img, Lazy(img, m, n), order, hash), BoundMemory(img, m, Ascending(n), hash));
    EagerIsBound(img, m, n, hash);
  }

  // Binding entry i last leaves its own target in its slot.
  lemma BoundLast(img: Image, m: Memory, i: nat, hash: string -> nat)
    requires WellFormedImage(img) && Resolved(img, hash) && i < |img.entries|
    ensures Covers(img, Ascending(|img.entries|) + [i])
    ensures var b := BoundMemory(img, m, Ascending(|img.entries|) + [i], hash);
      Slot(img, i) in b && Some(b[Slot(img, i)]) == Target(img, i, hash)
  {
    AscendingCovers(img);
    var order := Ascending(|img.entries|) + [i];
    assert order[..|order| - 1] == Ascending(|img.entries|);
  }

  // Lazy binding ends in the same memory as eager relocation, for every order in
  // which the entries come to be bound, exactly when entries that share a slot
  // resolve to the same address.
  lemma LazyIsEagerExactly(img: Image, m: Memory, hash: string -> nat)
    requires WellFormedImage(img) && Resolved(img, hash)
    ensures (forall order :: Covers(img, order) ==> LazyMeetsEager(img, m, order, hash)) <==> Consistent(img, hash)
  {
    if Consistent(img, hash) {
      forall order | Covers(img, order) ensures LazyMeetsEager(img, m, order, hash) {
        ConsistentMeets(img, m, order, hash);
      }
    } else {
      var i, j :| 0 <= i < |img.entries| && 0 <= j < |img.entries| && Slot(img, i) == Slot(img, j)
        && Target(img, i, hash) != Target(img, j, hash);
      var n := |img.entries|;
      BoundLast(img, Lazy(img, m, n), i, hash);
      BoundLast(img, Lazy(img, m, n), j, hash);
      assert !LazyMeetsEager(img, m, Ascending(n) + [i], hash) || !LazyMeetsEager(img, m, Ascending(n) + [j], hash);
    }
  }

  // Two entries for one slot, with different symbols: eager relocation leaves the
  // second target, lazy binding whichever was called last.
  lemma SharedSlotDisagrees(m: Memory, hash: string -> nat) returns (img: Image)
    ensures WellFormedImage(img) && Resolved(img, hash)
    ensures Covers(img, [0, 1, 0]) && !LazyMeetsEager(img, m, [0, 1, 0], hash)
  {
    var symbols := [Symbol("", 0, true), Symbol("f", 16, true), Symbol("g", 32, true)];
    img := Image([Library(symbols, [0], [0, 0, 0], [], 0)], 0, 0, [Relocation(64, 1), Relocation(64, 2)]);
    assert Target(img, 0, hash) == Some(16) && Target(img, 1, hash) == Some(32);
    var order := [0, 1, 0];
    assert order[..2] == [0, 1] && order[0] == 0 && order[1] == 1;
    var lazy := BoundMemory(img, Lazy(img, m, 2), order, hash);
    assert lazy[64] == 16;
    assert Eager(img, m, 2, hash)[64] == 32;
  }
}
