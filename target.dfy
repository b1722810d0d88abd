/** The debugged CPU as the server sees it: six operations, each of which may
    fail.  What the CPU does inside is not modelled; its answers are given by
    a function of the calls made so far, and the CPU object keeps the log of
    those calls. */
module Target {
  import opened Wire

  /** One call the server makes on the CPU. */
  datatype CpuCall =
    | ReadMemoryCall(addr: u32)   // read the 32-bit word at an address
    | ResumeCall
    | StepCall
    | HaltCall
    | FeatureCall(name: Bytes)    // fetch a target description document
    | ThreadsCall                 // fetch the thread list document

  /** What the CPU answers to a call: whether it failed, and the word or
      document it returns for the calls that return one. */
  datatype CpuAnswer = CpuAnswer(failed: bool, word: u32, document: Bytes)

  /** The answer to the last call of a log, given the whole log. */
  type Oracle = seq<CpuCall> -> CpuAnswer

  class Cpu {
    const answer: Oracle
    var calls: seq<CpuCall>

    constructor(answer: Oracle)
      ensures this.answer == answer && calls == []
    {
      this.answer := answer;
      calls := [];
    }

    /** Makes a call: it joins the log and the oracle answers it. */
    method Call(c: CpuCall) returns (a: CpuAnswer)
      modifies this
      ensures calls == old(calls) + [c]
      ensures a == answer(calls)
    {
      calls := calls + [c];
      a := answer(calls);
    }

    /** `read_memory(bridge, addr, 4)`: the word at `addr`. */
    method ReadMemory(addr: u32) returns (r: Result<u32>)
      modifies this
      ensures calls == old(calls) + [ReadMemoryCall(addr)]
      ensures r == WordResult(answer(calls))
    {
      var a := Call(ReadMemoryCall(addr));
      r := WordResult(a);
    }

    /** `resume`, `step` and `halt`: a control call that returns nothing. */
    method Control(c: CpuCall) returns (r: Result<()>)
      requires c == ResumeCall || c == StepCall || c == HaltCall
      modifies this
      ensures calls == old(calls) + [c]
      ensures r == UnitResult(answer(calls))
    {
      var a := Call(c);
      r := UnitResult(a);
    }

    /** `get_feature(name)` and `get_threads()`: a document. */
    method Document(c: CpuCall) returns (r: Result<Bytes>)
      requires c.FeatureCall? || c == ThreadsCall
      modifies this
      ensures calls == old(calls) + [c]
      ensures r == DocumentResult(answer(calls))
    {
      var a := Call(c);
      r := DocumentResult(a);
    }
  }

  /** A failed CPU call surfaces as a CPU error. */
  function WordResult(a: CpuAnswer): (r: Result<u32>)
    ensures r.Err? <==> a.failed
    ensures r.Err? ==> r.error == CpuError
    ensures r.Ok? ==> r.value == a.word
  {
    if a.failed then Err(CpuError) else Ok(a.word)
  }

  function UnitResult(a: CpuAnswer): (r: Result<()>)
    ensures r.Err? <==> a.failed
    ensures r.Err? ==> r.error == CpuError
  {
    if a.failed then Err(CpuError) else Ok(())
  }

  function DocumentResult(a: CpuAnswer): (r: Result<Bytes>)
    ensures r.Err? <==> a.failed
    ensures r.Err? ==> r.error == CpuError
    ensures r.Ok? ==> r.value == a.document
  {
    if a.failed then Err(CpuError) else Ok(a.document)
  }
}
