/**
 Reading back what has been applied: the folds of pkg/gofr/migration/migration.go over the applied
 versions.
 */
module MigrationReads {
  import opened MigrationProtocol

  /** lastAppliedMigration, whatever order the map hands out its keys in. */
  method LastApplied(applied: set<int>, order: seq<int>) returns (last: int)
    requires forall v :: v in order <==> v in applied
    ensures IsLast(applied, last)
  {
    last := 0;
    for i := 0 to |order|
      invariant 0 <= last && (last == 0 || last in order[..i])
      invariant forall v | v in order[..i] :: v <= last
    {
      assert order[..i + 1] == order[..i] + [order[i]];
      last := if last < order[i] then order[i] else last;
    }
    assert order[..|order|] == order;
  }

  method HasNewMigrations(keys: seq<int>, last: int) returns (found: bool)
    ensures found <==> exists k | k in keys :: k > last
  {
    for i := 0 to |keys|
      invariant forall j | 0 <= j < i :: keys[j] <= last
    {
      if keys[i] > last {
        assert keys[i] in keys;
        return true;
      }
    }
    return false;
  }

  /** What becomes of a key on this start. */
  predicate Runs(k: int, last: int) { k > last }

  predicate Reported(k: int, applied: set<int>, last: int) { k !in applied && k < last }

  function SkippedOf(keys: seq<int>, applied: set<int>, last: int): seq<int> {
    if keys == [] then []
    else
      var k := keys[|keys| - 1];
      SkippedOf(keys[..|keys| - 1], applied, last) + if Reported(k, applied, last) then [k] else []
  }

  method SkippedMigrations(keys: seq<int>, applied: set<int>, order: seq<int>) returns (skipped: seq<int>, last: int)
    requires forall v :: v in order <==> v in applied
    ensures IsLast(applied, last) && skipped == SkippedOf(keys, applied, last)
  {
    last := LastApplied(applied, order);
    skipped := [];
    for i := 0 to |keys|
      invariant skipped == SkippedOf(keys[..i], applied, last)
    {
      assert keys[..i + 1][..i] == keys[..i];
      if keys[i] !in applied && keys[i] < last {
        skipped := skipped + [keys[i]];
      }
    }
    assert keys[..|keys|] == keys;
  }

  lemma {:induction false} SkippedMembers(keys: seq<int>, applied: set<int>, last: int, k: int)
    ensures k in SkippedOf(keys, applied, last) <==> k in keys && Reported(k, applied, last)
  {
    if keys != [] {
      SkippedMembers(keys[..|keys| - 1], applied, last, k);
      assert keys == keys[..|keys| - 1] + [keys[|keys| - 1]];
    }
  }

  /**
   Every key was applied, runs now, or is reported as skipped, no two of these at once, unless it is
   key 0 with no positive version applied: that key is passed over in silence.
   */
  lemma KeyAccounted(keys: seq<int>, applied: set<int>, last: int, k: int)
    requires IsLast(applied, last) && k in keys
    ensures k in applied || Runs(k, last) || k in SkippedOf(keys, applied, last) <==> !(k == 0 == last && 0 !in applied)
    ensures !(k in applied && Runs(k, last)) && !(Runs(k, last) && k in SkippedOf(keys, applied, last))
    ensures !(k in applied && k in SkippedOf(keys, applied, last))
  {
    SkippedMembers(keys, applied, last, k);
  }
}
