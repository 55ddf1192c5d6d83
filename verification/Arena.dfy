/** The node arena of the buddy allocator: 20 MiB of records, each with a two-word header (in use, size). */
module Arena {

  const AREA := 20 * 1024 * 1024
  /** Tree head: header and two pointers. */
  const FIRST := 16
  /** Header, tree node and allocation record. */
  const RECORD := 40
  /** The nodes that fit. */
  const CAPACITY := 524287

  /** Words of the area by their byte offset. */
  type Words = seq<nat>

  predicate Sized(mem: Words) { |mem| == AREA / 4 }

  function Used(mem: Words, at: nat): (u: nat) requires Sized(mem) && at % 4 == 0 && at + 8 <= AREA { mem[at / 4] }
  function Size(mem: Words, at: nat): (s: nat) requires Sized(mem) && at % 4 == 0 && at + 8 <= AREA { mem[at / 4 + 1] }

  /** Where the record of node `k` starts. */
  function RecordAt(k: nat): (o: nat) { FIRST + RECORD * k }

  ghost predicate HeaderIs(mem: Words, at: nat, used: nat, size: nat) {
    Sized(mem) && at % 4 == 0 && at + 8 <= AREA && Used(mem, at) == used && Size(mem, at) == size
  }

  /** The area after `n` nodes: the tree head, `n` used records and one free record tile it. */
  ghost predicate Tiled(mem: Words, n: nat) {
    n <= CAPACITY && HeaderIs(mem, 0, 1, FIRST) &&
    (forall k :: 0 <= k < n ==> HeaderIs(mem, RecordAt(k), 1, RECORD)) &&
    HeaderIs(mem, RecordAt(n), 0, AREA - RecordAt(n))
  }

  // ----- the scan -----

  datatype Scanned =
    | At(offset: nat)   // a free record that is large enough
    | Overflow          // the guard stopped the scan: SYS_RET_UNAVAILABLE
    | Outside           // the scan reads a header at or past the end of the area

  /** The scan of `__buddy_allocator__alloc_node` from `at`; its guard lets `at` equal the area's end. */
  function Scan(mem: Words, at: nat): (r: Scanned)
    requires Sized(mem)
    decreases AREA + 1 - at
  {
    if at % 4 != 0 || at + 8 > AREA then Outside
    else if Used(mem, at) == 0 && Size(mem, at) >= RECORD then At(at)
    else if Size(mem, at) == 0 then Outside
    else if at + Size(mem, at) > AREA then Overflow
    else Scan(mem, at + Size(mem, at))
  }

  /** The scan walks over the used records. */
  lemma {:induction false} ScanFrom(mem: Words, n: nat, k: nat)
    requires Tiled(mem, n) && k <= n
    ensures Scan(mem, RecordAt(k)) == if n < CAPACITY then At(RecordAt(n)) else Outside
    decreases n - k
  {
    if k < n {
      assert HeaderIs(mem, RecordAt(k), 1, RECORD);
      ScanFrom(mem, n, k + 1);
    } else if n == CAPACITY {
      assert RecordAt(n) + (AREA - RecordAt(n)) == AREA;
      assert Scan(mem, AREA) == Outside;
    }
  }

  /** An allocation finds the free record exactly when fewer than 524287 nodes exist; the next one reads a header
      just past the area, because the guard compares with `>`. */
  lemma {:induction false} ScanIsExact(mem: Words, n: nat)
    requires Tiled(mem, n)
    ensures Scan(mem, 0) == if n < 524287 then At(16 + 40 * n) else Outside
  {
    ScanFrom(mem, n, 0);
  }

  /** Records hold disjoint payloads, away from every header, all inside the area. */
  lemma RecordsDisjoint(mem: Words, n: nat, j: nat, k: nat)
    requires Tiled(mem, n) && j < k <= n
    ensures 16 + 40 * j + 40 <= 16 + 40 * k <= 20971520 - 24
    ensures mem[4 + 10 * j] == 1 && mem[5 + 10 * j] == 40
    ensures mem[4 + 10 * n] == 0 && mem[5 + 10 * n] == 20971520 - (16 + 40 * n)
  {
    assert HeaderIs(mem, RecordAt(j), 1, RECORD);
  }

  // ----- the routines -----

  class Arena {
    const mem: array<nat>
    ghost var nodes: nat

    ghost predicate Valid()
      reads this, mem
    {
      Tiled(mem[..], nodes)
    }

    /** The arena part of `buddy_allocator__init`. */
    constructor ()
      ensures Valid() && fresh(mem) && nodes == 0
      ensures mem.Length == 5242880 && mem[0] == 1 && mem[1] == 16 && mem[4] == 0 && mem[5] == 20971504
    {
      var words := new nat[AREA / 4](_ => 0);
      words[0], words[1] := 1, FIRST;
      words[FIRST / 4], words[FIRST / 4 + 1] := 0, AREA - FIRST;
      mem := words;
      nodes := 0;
    }

    /** `__buddy_allocator__alloc_node`: the offset of the new node. */
    method AllocNode() returns (node: nat)
      requires Valid() && nodes < CAPACITY
      modifies this, mem
      ensures Valid() && nodes == old(nodes) + 1
      ensures node == 16 + 40 * old(nodes) + 8 && node + 32 <= 20971520
      ensures var i, rest := 4 + 10 * old(nodes), 20971520 - 16 - 40 * (old(nodes) + 1);
        mem[..] == old(mem[..])[i := 1][i + 1 := 40][i + 10 := 0][i + 11 := rest]
    {
      ScanIsExact(mem[..], nodes);
      var at := 0;
      while !(mem[at / 4] == 0 && mem[at / 4 + 1] >= RECORD)
        invariant at % 4 == 0 && 0 <= at && at + 8 <= AREA && Sized(mem[..])
        invariant Scan(mem[..], at) == At(RecordAt(nodes))
        decreases AREA - at
      {
        at := at + mem[at / 4 + 1];
      }
      Claim(at);
      node := at + 8;
    }

    /** Turns the free record at `at` into a used one and writes the header of what is left. */
    method Claim(at: nat)
      requires Valid() && nodes < CAPACITY && at == RecordAt(nodes)
      modifies this, mem
      ensures Valid() && nodes == old(nodes) + 1
      ensures var i := at / 4;
        mem[..] == old(mem[..])[i := 1][i + 1 := RECORD][i + 10 := 0][i + 11 := AREA - RecordAt(old(nodes)) - RECORD]
    {
      var before := mem[..];
      mem[at / 4] := 1;
      var oldSize := mem[at / 4 + 1];
      mem[at / 4 + 1] := RECORD;
      var next := at + RECORD;
      mem[next / 4] := 0;
      mem[next / 4 + 1] := oldSize - RECORD;
      ClaimTiles(before, mem[..], nodes);
      nodes := nodes + 1;
    }
  }

  lemma {:induction false} ClaimTiles(mem: Words, mem': Words, n: nat)
    requires Tiled(mem, n) && n < CAPACITY && |mem'| == |mem|
    requires var i := RecordAt(n) / 4;
      mem' == mem[i := 1][i + 1 := RECORD][i + 10 := 0][i + 11 := AREA - RecordAt(n) - RECORD]
    ensures Tiled(mem', n + 1)
  {
    forall k | 0 <= k < n + 1 ensures HeaderIs(mem', RecordAt(k), 1, RECORD) {
      if k < n {
        assert HeaderIs(mem, RecordAt(k), 1, RECORD);
      }
    }
    assert RecordAt(n + 1) / 4 == RecordAt(n) / 4 + 10;
  }
}
