/** The key of one entry of one entity and its ordering. */
module EntryInfo {
  import opened Records

  datatype EntryKey = EntryKey(entityId: U64, entry: U64)

  /** Ordering by entity id, then by entry. A key is only less than a
      different key, never one of a smaller entity. */
  function Less(k: EntryKey, other: EntryKey): (b: bool)
    ensures b ==> k != other && k.entityId <= other.entityId
  {
    if k.entityId != other.entityId then k.entityId < other.entityId else k.entry < other.entry
  }

  /** Field-wise equality, which is equality of keys. */
  function Equal(k: EntryKey, other: EntryKey): (b: bool)
    ensures b <==> k == other
  {
    k.entityId == other.entityId && k.entry == other.entry
  }

  /** Less is the lexicographic order on (entityId, entry). */
  lemma LessIsLexicographic(a: EntryKey, b: EntryKey)
    ensures Less(a, b) <==> a.entityId < b.entityId || (a.entityId == b.entityId && a.entry < b.entry)
  {
  }

  /** Less is a strict order. */
  lemma LessIsStrictOrder(a: EntryKey, b: EntryKey, c: EntryKey)
    ensures !Less(a, a)
    ensures Less(a, b) && Less(b, c) ==> Less(a, c)
    ensures Less(a, b) ==> !Less(b, a)
  {
  }

  /** Exactly one of a < b, b < a and a = b holds. */
  lemma Trichotomy(a: EntryKey, b: EntryKey)
    ensures Less(a, b) || Less(b, a) || Equal(a, b)
    ensures !(Less(a, b) && Equal(a, b))
    ensures !(Less(b, a) && Equal(a, b))
    ensures !(Less(a, b) && Less(b, a))
  {
  }

  /** Whether keys are in strictly increasing order. */
  predicate StrictlySorted(ks: seq<EntryKey>) {
    forall i, j :: 0 <= i < j < |ks| ==> Less(ks[i], ks[j])
  }

  /** Strict increase of neighbours is enough for a strictly sorted sequence,
      which then holds no key twice. */
  lemma {:induction false} AdjacentLessSorts(ks: seq<EntryKey>)
    requires forall i :: 0 <= i < |ks| - 1 ==> Less(ks[i], ks[i + 1])
    ensures StrictlySorted(ks)
    ensures forall i, j :: 0 <= i < j < |ks| ==> ks[i] != ks[j]
  {
    if |ks| > 1 {
      var front := ks[..|ks| - 1];
      assert forall i :: 0 <= i < |front| ==> front[i] == ks[i];
      AdjacentLessSorts(front);
      forall i, j | 0 <= i < j < |ks|
        ensures Less(ks[i], ks[j])
      {
        if j < |ks| - 1 {
          assert front[i] == ks[i] && front[j] == ks[j];
        } else if i < |ks| - 2 {
          assert front[i] == ks[i] && front[|ks| - 2] == ks[|ks| - 2];
          LessIsStrictOrder(ks[i], ks[|ks| - 2], ks[j]);
        }
      }
    }
    forall i, j | 0 <= i < j < |ks|
      ensures ks[i] != ks[j]
    {
      LessIsStrictOrder(ks[i], ks[j], ks[j]);
    }
  }
}
