// Symbol tables with a System V hash table (System V gABI, chapter 5, "Hash
// Table"), as both linkers search them: sys/ioglue/iolibrary.c in the kernel and
// bin/linkd/library.c in user space.

module SymbolTable {
  import opened Common

  datatype Symbol = Symbol(name: string, value: nat, local: bool)

  // `needed` lists the libraries it depends on, in the order of its DT_NEEDED
  // entries, as numbers of loaded libraries.
  datatype Library = Library(symtab: seq<Symbol>, buckets: seq<nat>, chains: seq<nat>, needed: seq<nat>, base: nat)

  // Following the chain from `symnum` meets STN_UNDEF within the given steps.
  ghost predicate Ends(chains: seq<nat>, symnum: nat, steps: nat)
    decreases steps
  {
    symnum == 0 || (steps > 0 && symnum < |chains| && Ends(chains, chains[symnum], steps - 1))
  }

  // The symbol numbers met on the way.
  ghost function Chain(chains: seq<nat>, symnum: nat, steps: nat): seq<nat>
    requires Ends(chains, symnum, steps)
    decreases steps
  {
    if symnum == 0 then [] else [symnum] + Chain(chains, chains[symnum], steps - 1)
  }

  ghost function Bucket(lib: Library, b: nat): seq<nat>
    requires WellFormed(lib) && b < |lib.buckets|
  {
    Chain(lib.chains, lib.buckets[b], |lib.chains|)
  }

  ghost predicate WellFormed(lib: Library) {
    && |lib.buckets| > 0 && |lib.chains| == |lib.symtab|
    && forall b :: 0 <= b < |lib.buckets| ==> Ends(lib.chains, lib.buckets[b], |lib.chains|)
  }

  // Every symbol of a chain hashes to that chain's bucket.
  ghost predicate HashedBy(lib: Library, hash: string -> nat)
    requires WellFormed(lib)
  {
    forall b, i {:trigger i in Bucket(lib, b)} :: 0 <= b < |lib.buckets| && i in Bucket(lib, b) ==>
      i < |lib.symtab| && hash(lib.symtab[i].name) % |lib.buckets| == b
  }

  ghost predicate InRange(c: seq<nat>, limit: nat) {
    forall k :: 0 <= k < |c| ==> 0 < c[k] < limit
  }

  lemma {:induction false} ChainInRange(chains: seq<nat>, symnum: nat, steps: nat)
    requires Ends(chains, symnum, steps)
    ensures InRange(Chain(chains, symnum, steps), |chains|)
    decreases steps
  {
    if symnum != 0 { ChainInRange(chains, chains[symnum], steps - 1); }
  }

  // The first symbol of that name on the chain.
  ghost function FirstNamed(lib: Library, c: seq<nat>, name: string): Option<nat>
    requires InRange(c, |lib.symtab|)
  {
    if c == [] then None
    else if lib.symtab[c[0]].name == name then Some(c[0])
    else FirstNamed(lib, c[1..], name)
  }

  ghost function SymbolNamed(lib: Library, name: string, hash: nat): Option<nat>
    requires WellFormed(lib)
  {
    var c := Bucket(lib, hash % |lib.buckets|);
    ChainInRange(lib.chains, lib.buckets[hash % |lib.buckets|], |lib.chains|);
    FirstNamed(lib, c, name)
  }

  // library_symbolWithName() and io_librarySymbolWithName().
  method SymbolWithName(lib: Library, name: string, hash: nat) returns (r: Option<nat>)
    requires WellFormed(lib)
    ensures r == SymbolNamed(lib, name, hash)
    ensures r.Some? ==> 0 < r.value < |lib.symtab| && lib.symtab[r.value].name == name
  {
    var symnum := lib.buckets[hash % |lib.buckets|];
    ghost var steps: nat := |lib.chains|;
    ChainInRange(lib.chains, symnum, steps);
    while symnum != 0
      invariant Ends(lib.chains, symnum, steps)
      invariant InRange(Chain(lib.chains, symnum, steps), |lib.chains|)
      invariant FirstNamed(lib, Chain(lib.chains, symnum, steps), name) == SymbolNamed(lib, name, hash)
      decreases steps
    {
      assert symnum in Chain(lib.chains, symnum, steps);
      assert Chain(lib.chains, symnum, steps)[1..] == Chain(lib.chains, lib.chains[symnum], steps - 1);
      if lib.symtab[symnum].name == name {
        return Some(symnum);
      }
      symnum, steps := lib.chains[symnum], steps - 1;
    }
    return None;
  }

  lemma {:induction false} FirstNamedFinds(lib: Library, c: seq<nat>, name: string)
    requires InRange(c, |lib.symtab|)
    ensures FirstNamed(lib, c, name).Some? <==> exists i :: i in c && lib.symtab[i].name == name
    ensures FirstNamed(lib, c, name).Some? ==>
      FirstNamed(lib, c, name).value in c && lib.symtab[FirstNamed(lib, c, name).value].name == name
  {
    if c != [] {
      FirstNamedFinds(lib, c[1..], name);
      assert c == [c[0]] + c[1..];
    }
  }

  // It is the first one of the chain.
  lemma {:induction false} FirstNamedIsFirst(lib: Library, c: seq<nat>, name: string, k: nat)
    requires InRange(c, |lib.symtab|) && k < |c| && lib.symtab[c[k]].name == name
    requires forall j :: 0 <= j < k ==> lib.symtab[c[j]].name != name
    ensures FirstNamed(lib, c, name) == Some(c[k])
  {
    if k > 0 { FirstNamedIsFirst(lib, c[1..], name, k - 1); }
  }

  // Walking the one chain finds a name exactly when a scan of all hashed symbols would.
  lemma ChainLookupIsScan(lib: Library, name: string, hash: string -> nat)
    requires WellFormed(lib) && HashedBy(lib, hash)
    ensures SymbolNamed(lib, name, hash(name)).Some? <==>
      exists b, i :: 0 <= b < |lib.buckets| && i in Bucket(lib, b) && lib.symtab[i].name == name
  {
    var b0 := hash(name) % |lib.buckets|;
    var c := Bucket(lib, b0);
    ChainInRange(lib.chains, lib.buckets[b0], |lib.chains|);
    FirstNamedFinds(lib, c, name);
    if SymbolNamed(lib, name, hash(name)).Some? {
      assert SymbolNamed(lib, name, hash(name)).value in Bucket(lib, b0);
    }
    forall b, i | 0 <= b < |lib.buckets| && i in Bucket(lib, b) && lib.symtab[i].name == name
      ensures i in c
    {
      assert b == b0;
    }
  }
}
