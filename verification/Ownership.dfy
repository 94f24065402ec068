/**
 Who holds the buffers of a pool.
 */
module Ownership {
  import opened IoBuffer
  import opened Wrappers

  /** The buffer a handle denotes, if any. */
  function Handle(b: Option<Window>): multiset<nat>
  {
    if b.None? then multiset{} else multiset{b.value.id}
  }

  /** What is handed out is exactly what others hold and what the handles in `mine` denote, counted with
      multiplicity.  As the left side is a set, no buffer is denoted by two handles or also held by others. */
  ghost predicate Owned(held: set<nat>, others: set<nat>, mine: multiset<nat>)
  {
    multiset(held) == multiset(others) + mine
  }

  lemma HeldGrows(held: set<nat>, id: nat)
    requires id !in held
    ensures multiset(held + {id}) == multiset(held) + multiset{id}
  {
  }

  lemma HeldShrinks(held: set<nat>, id: nat)
    requires multiset(held)[id] > 0
    ensures id in held && multiset(held) == multiset(held - {id}) + multiset{id}
  {
  }

  lemma Cancel(a: multiset<nat>, b: multiset<nat>, id: nat)
    requires a + multiset{id} == b + multiset{id}
    ensures a == b
  {
    assert (a + multiset{id}) - multiset{id} == a;
    assert (b + multiset{id}) - multiset{id} == b;
  }

  lemma Acquired(held: set<nat>, others: set<nat>, mine: multiset<nat>, id: nat)
    requires Owned(held, others, mine) && id !in held
    ensures Owned(held + {id}, others, mine + multiset{id})
  {
    HeldGrows(held, id);
  }

  lemma Released(held: set<nat>, others: set<nat>, mine: multiset<nat>, id: nat)
    requires Owned(held, others, mine + multiset{id})
    ensures id in held && Owned(held - {id}, others, mine)
  {
    HeldShrinks(held, id);
    Cancel(multiset(held - {id}), multiset(others) + mine, id);
  }

  lemma OwnedNothing(held: set<nat>, others: set<nat>)
    ensures Owned(held, others, multiset{}) <==> held == others
  {
    if multiset(held) == multiset(others) {
      forall id ensures id in held <==> id in others {
        assert id in multiset(held) <==> id in multiset(others);
      }
    }
  }

  /** What ownership means: no two handles denote one buffer, none is held by others, and every buffer
      handed out is accounted for. */
  lemma OwnedMeans(held: set<nat>, others: set<nat>, mine: multiset<nat>, id: nat)
    requires Owned(held, others, mine)
    ensures mine[id] <= 1
    ensures id in others ==> mine[id] == 0
    ensures id in held <==> id in others || id in mine
  {
    assert multiset(held)[id] <= 1;
  }
}
