/** Clients' handles on things that are shared by count: who holds what. */
module Handles {
  function Holders(handles: map<nat, nat>, held: nat): set<nat> {
    set h | h in handles && handles[h] == held
  }

  lemma HoldersAfterSet(handles: map<nat, nat>, h: nat, a: nat)
    ensures forall b :: Holders(handles[h := a], b) == if a == b then Holders(handles, b) + {h} else Holders(handles, b) - {h}
  {
  }

  lemma HoldersAfterDrop(handles: map<nat, nat>, h: nat)
    ensures forall b :: Holders(handles - {h}, b) == Holders(handles, b) - {h}
  {
  }

  lemma NotAHolder(handles: map<nat, nat>, h: nat)
    requires h !in handles
    ensures forall b :: h !in Holders(handles, b)
  {
  }

  lemma OtherHolders(handles: map<nat, nat>, h: nat)
    requires h in handles
    ensures forall b | b != handles[h] :: h !in Holders(handles, b)
  {
  }

  lemma SingleHolder(handles: map<nat, nat>, h: nat)
    requires h in handles && |Holders(handles, handles[h])| == 1
    ensures forall g | g in handles && g != h :: handles[g] != handles[h]
  {
    var s := Holders(handles, handles[h]);
    assert h in s && |s - {h}| == 0;
    forall g | g in handles && g != h ensures handles[g] != handles[h] {
      assert g !in s - {h};
    }
  }
}
