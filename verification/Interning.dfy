// The table of interned stack traces and the shared-pointer counts that drive its constructor
// and destructor.
module Interning {
  import opened Basics

  /** Every live trace object is the one the table has for its hash, and is held by the table
      and at least one handle. */
  ghost predicate InternOk(table: map<nat, nat>, uses: map<nat, nat>, hashes: map<nat, nat>) {
    && uses.Keys == hashes.Keys
    && (forall o | o in uses :: 2 <= uses[o] && hashes[o] in table && table[hashes[o]] == o)
    && (forall h | h in table :: table[h] in uses && hashes[table[h]] == h)
  }

  ghost function Holders(traceOf: map<nat, nat>, o: nat): set<nat> {
    set id | id in traceOf && traceOf[id] == o
  }

  /** The use counts are right: one for the table, one for every allocation that has the object
      as its trace, and one for every handle held outside (`extra`). */
  ghost predicate Held(traceOf: map<nat, nat>, uses: map<nat, nat>, extra: multiset<nat>) {
    && (forall id | id in traceOf :: traceOf[id] in uses)
    && (forall o | o in extra :: o in uses)
    && (forall o | o in uses :: uses[o] == 1 + |Holders(traceOf, o)| + extra[o])
  }

  class InternTable {
    var table: map<nat, nat>    // hash -> trace object
    var uses: map<nat, nat>     // trace object -> use count of its shared pointer
    var hashes: map<nat, nat>   // trace object -> its hash
    var nextObject: nat

    ghost predicate Valid()
      reads this
    {
      InternOk(table, uses, hashes) && forall o | o in uses :: o < nextObject
    }

    constructor ()
      ensures Valid() && table == map[] && uses == map[] && hashes == map[]
    {
      table, uses, hashes, nextObject := map[], map[], map[], 0;
    }

    /** A handle for the current stack trace, given by its hash. */
    method Construct(hash: nat) returns (o: nat)
      requires Valid()
      modifies this
      ensures Valid()
      ensures if hash in old(table)
        then o == old(table)[hash] && table == old(table) && hashes == old(hashes) && uses == old(uses)[o := old(uses)[o] + 1]
        else o !in old(uses) && table == old(table)[hash := o] && hashes == old(hashes)[o := hash] && uses == old(uses)[o := 2]
    {
      if hash in table {
        o := table[hash];
        uses := uses[o := uses[o] + 1];
      } else {
        o := nextObject;
        InternNew(table, uses, hashes, hash, o);
        nextObject := nextObject + 1;
        uses := uses[o := 1];
        hashes := hashes[o := hash];
        table := table[hash := o];
        uses := uses[o := uses[o] + 1];
      }
    }

    method Copy(o: nat)
      requires Valid() && o in uses
      modifies `uses
      ensures Valid() && uses == old(uses)[o := old(uses)[o] + 1]
    {
      uses := uses[o := uses[o] + 1];
    }

    /** A handle goes away: with the last one the table gives up the trace and the object dies. */
    method Destroy(o: nat)
      requires Valid() && o in uses
      modifies this
      ensures Valid()
      ensures if old(uses)[o] == 2
        then uses == old(uses) - {o} && hashes == old(hashes) - {o} && table == old(table) - {old(hashes)[o]}
        else uses == old(uses)[o := old(uses)[o] - 1] && hashes == old(hashes) && table == old(table)
    {
      assert uses[o] >= 2;
      if uses[o] == 2 {
        table := table - {hashes[o]};
        uses := uses[o := uses[o] - 1];
        assert uses[o] == 1;
        uses := uses - {o};
        hashes := hashes - {o};
      } else {
        uses := uses[o := uses[o] - 1];
      }
    }
  }

  lemma InternNew(table: map<nat, nat>, uses: map<nat, nat>, hashes: map<nat, nat>, hash: nat, o: nat)
    requires InternOk(table, uses, hashes) && o !in uses && hash !in table
    ensures InternOk(table[hash := o], uses[o := 2], hashes[o := hash])
    ensures uses[o := 1][o := 2] == uses[o := 2]
  {
    Overwrite(uses, o, 1, 2);
  }

  // --- What each step does to the counts -------------------------------------

  /** A new handle on `o`, held outside. */
  lemma HandleAdded(traceOf: map<nat, nat>, uses: map<nat, nat>, extra: multiset<nat>, o: nat)
    requires Held(traceOf, uses, extra)
    ensures o in uses ==> Held(traceOf, uses[o := uses[o] + 1], extra + multiset{o})
    ensures o !in uses ==> Held(traceOf, uses[o := 2], extra + multiset{o})
  {
  }

  /** An outside handle on `o` goes away. */
  lemma HandleDropped(traceOf: map<nat, nat>, uses: map<nat, nat>, extra: multiset<nat>, o: nat)
    requires Held(traceOf, uses, extra) && extra[o] > 0
    ensures uses[o] >= 2
    ensures uses[o] == 2 ==> Held(traceOf, uses - {o}, extra - multiset{o})
    ensures uses[o] > 2 ==> Held(traceOf, uses[o := uses[o] - 1], extra - multiset{o})
  {
    if uses[o] == 2 {
      assert |Holders(traceOf, o)| == 0;
      forall id | id in traceOf ensures traceOf[id] != o {
        assert traceOf[id] == o ==> id in Holders(traceOf, o);
      }
    }
  }

  /** An outside handle becomes the trace of a new allocation. */
  lemma HandleGiven(traceOf: map<nat, nat>, uses: map<nat, nat>, extra: multiset<nat>, o: nat, id: nat)
    requires Held(traceOf, uses, extra) && extra[o] > 0 && id !in traceOf
    ensures Held(traceOf[id := o], uses, extra - multiset{o})
  {
    assert Holders(traceOf[id := o], o) == Holders(traceOf, o) + {id};
    forall q | q in uses && q != o ensures Holders(traceOf[id := o], q) == Holders(traceOf, q) {
    }
  }

  /** An allocation dies and leaves its handle behind, to be destroyed. */
  lemma HandleTaken(traceOf: map<nat, nat>, uses: map<nat, nat>, extra: multiset<nat>, id: nat)
    requires Held(traceOf, uses, extra) && id in traceOf
    ensures Held(traceOf - {id}, uses, extra + multiset{traceOf[id]})
  {
    var o := traceOf[id];
    assert Holders(traceOf, o) == Holders(traceOf - {id}, o) + {id};
    forall q | q in uses && q != o ensures Holders(traceOf - {id}, q) == Holders(traceOf, q) {
    }
  }
}
