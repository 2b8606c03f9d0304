/** The Intcode machine's two-tier memory: a dense segment holding the loaded
    program and a sparse map for every address at or beyond its end, where an
    address never written reads as 0. */
module IntcodeMemory {

  datatype Memory = Memory(dense: seq<int>, sparse: map<nat, int>)

  /** No sparse entry shadows a dense cell: every write keeps it so. */
  ghost predicate Valid(m: Memory) {
    forall a :: a in m.sparse ==> a >= |m.dense|
  }

  /** A memory holding just the loaded program. */
  function New(dense: seq<int>): (m: Memory)
    ensures Valid(m)
    ensures m.dense == dense && |m.sparse| == 0
  {
    Memory(dense, map[])
  }

  function Read(m: Memory, address: nat): int
  {
    if address < |m.dense| then m.dense[address]
    else if address in m.sparse then m.sparse[address]
    else 0
  }

  /** A write lands in the dense segment exactly when the address is below its
      length; otherwise it creates or updates a sparse entry. The dense
      segment never grows. */
  function Write(m: Memory, address: nat, value: int): (r: Memory)
    ensures |r.dense| == |m.dense|
    ensures address < |m.dense| ==> r.dense == m.dense[address := value] && r.sparse == m.sparse
    ensures address >= |m.dense| ==> r.dense == m.dense && r.sparse == m.sparse[address := value]
    ensures Valid(m) ==> Valid(r)
  {
    if address < |m.dense| then
      m.(dense := m.dense[address := value])
    else
      m.(sparse := m.sparse[address := value])
  }

  /** A fresh memory reads the program inside the dense segment and 0 everywhere else. */
  lemma ReadNew(dense: seq<int>, address: nat)
    ensures Read(New(dense), address) == if address < |dense| then dense[address] else 0
  {
  }

  /** Reading back: the written address holds the value, every other address is untouched. */
  lemma ReadAfterWrite(m: Memory, address: nat, value: int, other: nat)
    ensures Read(Write(m, address, value), address) == value
    ensures other != address ==> Read(Write(m, address, value), other) == Read(m, other)
  {
  }

  /** An address that no write touched beyond the program's end reads as 0, however
      far away the writes went. */
  lemma UnwrittenSparseIsZero(program: seq<int>, writes: seq<(nat, int)>, address: nat)
    requires address >= |program|
    requires forall i :: 0 <= i < |writes| ==> writes[i].0 != address
    ensures Read(WriteAll(New(program), writes), address) == 0
  {
    WriteAllElsewhere(New(program), writes, address);
  }

  /** Applies writes in order. */
  function WriteAll(m: Memory, writes: seq<(nat, int)>): Memory
    decreases |writes|
  {
    if |writes| == 0 then m
    else WriteAll(Write(m, writes[0].0, writes[0].1), writes[1..])
  }

  lemma {:induction false} WriteAllElsewhere(m: Memory, writes: seq<(nat, int)>, address: nat)
    requires forall i :: 0 <= i < |writes| ==> writes[i].0 != address
    ensures Read(WriteAll(m, writes), address) == Read(m, address)
    decreases |writes|
  {
    if |writes| > 0 {
      ReadAfterWrite(m, writes[0].0, writes[0].1, address);
      WriteAllElsewhere(Write(m, writes[0].0, writes[0].1), writes[1..], address);
    }
  }
}
