// MemoryTest: a list of (memory type, status) conditions that behaviours and
// sensors declare, built by appending one pair at a time.
module MemoryTests {
  import opened Wrappers
  import opened Domain

  /** The pairs one plural call appends: each memory with the same status, in argument order. */
  function Tagged(memories: seq<MemoryType>, status: MemoryStatus): (r: seq<Requirement>)
    ensures |r| == |memories|
    ensures forall i :: 0 <= i < |memories| ==> r[i] == (memories[i], status)
  {
    seq(|memories|, i requires 0 <= i < |memories| => (memories[i], status))
  }

  /** The conditions a plural call adds hold exactly when each named memory has that status. */
  lemma TaggedMet(m: Memories, memories: seq<MemoryType>, status: MemoryStatus)
    ensures AllRequirementsMet(m, Tagged(memories, status)) <==> forall i :: 0 <= i < |memories| ==> CheckMemory(m, memories[i], status)
  {
    var r := Tagged(memories, status);
    if AllRequirementsMet(m, r) {
      forall i | 0 <= i < |memories| ensures CheckMemory(m, memories[i], status) {
        assert r[i] == (memories[i], status);
      }
    }
  }

  /** Conditions appended after others leave the earlier ones in force: the list is a conjunction. */
  lemma AppendMet(m: Memories, a: seq<Requirement>, b: seq<Requirement>)
    ensures AllRequirementsMet(m, a + b) <==> AllRequirementsMet(m, a) && AllRequirementsMet(m, b)
  {
    if AllRequirementsMet(m, a + b) {
      forall i | 0 <= i < |b| ensures CheckMemory(m, b[i].0, b[i].1) {
        assert (a + b)[|a| + i] == b[i];
      }
      forall i | 0 <= i < |a| ensures CheckMemory(m, a[i].0, a[i].1) {
        assert (a + b)[i] == a[i];
      }
    }
  }

  class MemoryTest {
    /** The list itself, in insertion order, duplicates kept. */
    var entries: seq<Requirement>

    /** The list a valid capacity gives: empty. The capacity is not observable. */
    constructor Empty()
      ensures entries == []
    {
      entries := [];
    }

    method Add(memory: MemoryType, status: MemoryStatus) returns (self: MemoryTest)
      modifies this
      ensures self == this
      ensures entries == old(entries) + [(memory, status)]
    {
      entries := entries + [(memory, status)];
      self := this;
    }

    method HasMemory(memory: MemoryType) returns (self: MemoryTest)
      modifies this
      ensures self == this
      ensures entries == old(entries) + [(memory, ValuePresent)]
    {
      self := Add(memory, ValuePresent);
    }

    method NoMemory(memory: MemoryType) returns (self: MemoryTest)
      modifies this
      ensures self == this
      ensures entries == old(entries) + [(memory, ValueAbsent)]
    {
      self := Add(memory, ValueAbsent);
    }

    method UsesMemory(memory: MemoryType) returns (self: MemoryTest)
      modifies this
      ensures self == this
      ensures entries == old(entries) + [(memory, Registered)]
    {
      self := Add(memory, Registered);
    }

    /** The loop shared by the plural forms: one singular call per argument, in order. */
    method AddEach(memories: seq<MemoryType>, status: MemoryStatus) returns (self: MemoryTest)
      modifies this
      ensures self == this
      ensures entries == old(entries) + Tagged(memories, status)
    {
      var i := 0;
      while i < |memories|
        invariant 0 <= i <= |memories|
        invariant entries == old(entries) + Tagged(memories[..i], status)
      {
        var _ := Add(memories[i], status);
        assert Tagged(memories[..i + 1], status) == Tagged(memories[..i], status) + [(memories[i], status)];
        i := i + 1;
      }
      assert memories[..i] == memories;
      self := this;
    }

    method HasMemories(memories: seq<MemoryType>) returns (self: MemoryTest)
      modifies this
      ensures self == this
      ensures entries == old(entries) + Tagged(memories, ValuePresent)
    {
      self := AddEach(memories, ValuePresent);
    }

    method HasNoMemories(memories: seq<MemoryType>) returns (self: MemoryTest)
      modifies this
      ensures self == this
      ensures entries == old(entries) + Tagged(memories, ValueAbsent)
    {
      self := AddEach(memories, ValueAbsent);
    }

    method UsesMemories(memories: seq<MemoryType>) returns (self: MemoryTest)
      modifies this
      ensures self == this
      ensures entries == old(entries) + Tagged(memories, Registered)
    {
      self := AddEach(memories, Registered);
    }
  }

  /** ObjectArrayList.DEFAULT_INITIAL_CAPACITY. */
  const DEFAULT_INITIAL_CAPACITY: int := 10

  /**
   * builder(size), through the private constructor's ObjectArrayList(size):
   * a negative capacity throws IllegalArgumentException; any other gives an
   * empty list.
   */
  method SizedBuilder(size: int) returns (r: Result<MemoryTest>)
    ensures r.Throws? <==> size < 0
    ensures r.Throws? ==> r.exception == IllegalArgument
    ensures r.Ok? ==> fresh(r.value) && r.value.entries == []
  {
    if size < 0 {
      return Throws(IllegalArgument);
    }
    var t := new MemoryTest.Empty();
    r := Ok(t);
  }

  /** builder() passes the default capacity, so it never throws; the list starts empty. */
  method Builder() returns (t: MemoryTest)
    ensures fresh(t) && t.entries == []
  {
    var r := SizedBuilder(DEFAULT_INITIAL_CAPACITY);
    t := r.value;
  }
}
