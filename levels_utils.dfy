/** The four profile levels and their total order (src/lib/levels/types.ts and
    src/lib/levels/utils.ts). Every comparison of levels in the engine goes through
    `Index`, the position of a level in `LEVEL_ORDER`. */
module LevelOrder {
  import opened Wrappers
  import Seqs

  datatype Level = L1 | L2 | L3 | L4

  /** The declaration order of the levels. */
  const LEVEL_ORDER: seq<Level> := [L1, L2, L3, L4]

  /** `levelIndex`: the position of `level` in `LEVEL_ORDER` (`IndexIsPosition`
      proves it is what `LEVEL_ORDER.indexOf(level)` returns). The source throws
      "Unknown level" when the search fails; every `Level` value is in the order,
      so that branch cannot be taken here. */
  function Index(level: Level): (i: nat)
    ensures i < |LEVEL_ORDER| && LEVEL_ORDER[i] == level
  {
    match level
    case L1 => 0
    case L2 => 1
    case L3 => 2
    case L4 => 3
  }

  /** `Index` is the first (and only) position of the level in `LEVEL_ORDER`. */
  lemma IndexIsPosition(level: Level)
    ensures Seqs.IndexOf(LEVEL_ORDER, level) == Index(level)
  {
    var k := Seqs.IndexOf(LEVEL_ORDER, level);
    assert LEVEL_ORDER[Index(level)] == level;
    assert k != -1;
    assert LEVEL_ORDER[k] == level;
  }

  /** `compareLevels`: negative, zero or positive as `a` is below, equal to or above `b`. */
  function Compare(a: Level, b: Level): (c: int)
    ensures c == 0 <==> a == b
    ensures c < 0 <==> Index(a) < Index(b)
    ensures c > 0 <==> Index(a) > Index(b)
  {
    IndexInjective(a, b);
    Index(a) - Index(b)
  }

  /** `nextLevel`: the level one position further in the order, or None after L4. */
  function Next(level: Level): (r: Option<Level>)
    ensures r.None? <==> level == L4
    ensures r.Some? ==> Index(r.value) == Index(level) + 1
  {
    var next := Index(level) + 1;
    if next < |LEVEL_ORDER| then Some(LEVEL_ORDER[next]) else None
  }

  /** `minLevel`: the lower of the two levels, `a` on a tie. */
  function MinLevel(a: Level, b: Level): (r: Level)
    ensures r == a || r == b
    ensures Index(r) <= Index(a) && Index(r) <= Index(b)
  {
    if Compare(a, b) <= 0 then a else b
  }

  /** `maxLevel`: the higher of the two levels, `a` on a tie. */
  function MaxLevel(a: Level, b: Level): (r: Level)
    ensures r == a || r == b
    ensures Index(r) >= Index(a) && Index(r) >= Index(b)
  {
    if Compare(a, b) >= 0 then a else b
  }

  /** The positions are distinct, so the order is a total order on the four levels. */
  lemma IndexInjective(a: Level, b: Level)
    ensures Index(a) == Index(b) <==> a == b
  {
    if Index(a) == Index(b) {
      assert LEVEL_ORDER[Index(a)] == a && LEVEL_ORDER[Index(b)] == b;
    }
  }

  /** Comparison is antisymmetric. */
  lemma CompareAntisymmetric(a: Level, b: Level)
    ensures Compare(a, b) == -Compare(b, a)
  {
  }

  /** The successor, when there is one, is strictly above its argument. */
  lemma NextIsAbove(level: Level)
    ensures Next(level).Some? ==> Compare(Next(level).value, level) > 0
  {
  }

  /** Min and max are commutative and together return both arguments. */
  lemma MinMaxCommute(a: Level, b: Level)
    ensures MinLevel(a, b) == MinLevel(b, a)
    ensures MaxLevel(a, b) == MaxLevel(b, a)
    ensures {MinLevel(a, b), MaxLevel(a, b)} == {a, b}
  {
    IndexInjective(a, b);
    IndexInjective(MinLevel(a, b), MinLevel(b, a));
    IndexInjective(MaxLevel(a, b), MaxLevel(b, a));
  }
}
