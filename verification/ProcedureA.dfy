/**
  AIS-31 test procedure A of haveged, which is fed whatever the collector has: test 0 on the
  first 393216 bytes, then tests 1 to 5 on each of 257 blocks of 2500 bytes. Blocks that end
  inside a buffer are tested in place, and others are gathered in a bridge across calls. The
  tests themselves are functions of their block here.
*/
module ProcedureA {

  import opened Common

  const Test0Used: nat := 393216     // 65536 strings of 48 bits
  const FipsLength: nat := 2500
  const Repetitions: nat := 257
  const ProcReps: nat := 1286        // 1 + 5 * Repetitions
  const SampleSize: nat := 1035716   // Test0Used + FipsLength * Repetitions

  datatype ProcState = ProcInit | ProcInput | ProcEval | ProcDone | ProcRetry
  datatype TestState = TestInit | TestInput | TestDone

  /** The tests: test 0, tests 1 to 4 by number, and test 5, which may skip a repetition. */
  datatype Tests = Tests(test0: seq<Byte> -> int, fips: (nat, seq<Byte>) -> int, test5: (nat, seq<Byte>) -> int)

  // ---------- What a stream is worth ----------

  /** The number of the 2500-byte block that result r comes from. */
  function Repetition(r: nat): nat
    requires r > 0
  {
    (r - 1) / 5
  }

  /** The place of the block of result r in the stream, and its size. */
  function BlockAt(r: nat): nat {
    if r == 0 then 0 else Test0Used + FipsLength * Repetition(r)
  }

  function BlockSize(r: nat): nat {
    if r == 0 then Test0Used else FipsLength
  }

  /** testId. */
  function TestId(r: nat): nat {
    if r < 6 then r else 1 + (r - 6) % 5
  }

  /** Result r of a stream that holds its block. */
  function Outcome(t: Tests, stream: seq<Byte>, r: nat): int
    requires BlockAt(r) + BlockSize(r) <= |stream|
  {
    var block := stream[BlockAt(r)..BlockAt(r) + BlockSize(r)];
    if r == 0 then t.test0(block)
    else if TestId(r) < 5 then t.fips(TestId(r), block)
    else t.test5(r, block)
  }

  lemma NextRepetition(r: nat)
    requires r > 0 && TestId(r) == 1
    ensures forall k :: r <= k <= r + 4 ==> Repetition(k) == Repetition(r) && TestId(k) == 1 + k - r
    ensures Repetition(r + 5) == Repetition(r) + 1 && TestId(r + 5) == 1
    ensures r < ProcReps ==> r + 5 <= ProcReps && Repetition(r) < Repetitions
  {
  }

  /** The first n results are those of the stream. */
  ghost predicate Right(t: Tests, stream: seq<Byte>, results: seq<int>, n: nat) {
    && |results| == ProcReps && n <= ProcReps
    && forall r :: 0 <= r < n ==> BlockAt(r) + BlockSize(r) <= |stream| && results[r] == Outcome(t, stream, r)
  }

  lemma OutcomePrefix(t: Tests, s: seq<Byte>, s': seq<Byte>, r: nat)
    requires s <= s' && BlockAt(r) + BlockSize(r) <= |s|
    ensures Outcome(t, s, r) == Outcome(t, s', r)
  {
    assert s[BlockAt(r)..BlockAt(r) + BlockSize(r)] == s'[BlockAt(r)..BlockAt(r) + BlockSize(r)];
  }

  lemma RightPrefix(t: Tests, s: seq<Byte>, s': seq<Byte>, results: seq<int>, n: nat)
    requires Right(t, s, results, n) && s <= s'
    ensures Right(t, s', results, n)
  {
    forall r | 0 <= r < n
      ensures BlockAt(r) + BlockSize(r) <= |s'| && results[r] == Outcome(t, s', r)
    {
      OutcomePrefix(t, s, s', r);
    }
  }

  /** The results of a whole sample depend on its SampleSize bytes only, not on what follows or
      on how they came. */
  lemma SameSampleSameResults(t: Tests, s1: seq<Byte>, s2: seq<Byte>, r1: seq<int>, r2: seq<int>)
    requires |s1| >= SampleSize && |s2| >= SampleSize && s1[..SampleSize] == s2[..SampleSize]
    requires Right(t, s1, r1, ProcReps) && Right(t, s2, r2, ProcReps)
    ensures r1 == r2
  {
    var s := s1[..SampleSize];
    forall r | 0 <= r < ProcReps
      ensures r1[r] == r2[r]
    {
      BlocksInSample(r);
      OutcomePrefix(t, s, s1, r);
      OutcomePrefix(t, s, s2, r);
    }
  }

  lemma BlocksInSample(r: nat)
    requires r < ProcReps
    ensures BlockAt(r) + BlockSize(r) <= SampleSize
  {
  }

  // ---------- The state machine ----------

  /** chain5: where test 5 finds its block. */
  datatype Chain = InData(at: nat) | InAux

  class Procedure {
    const tests: Tests
    const aux: array<Byte>
    var data: seq<Byte>
    var procState: ProcState
    var procRetry: nat
    var testRun: nat
    var testState: TestState
    var bridge: nat
    var bytesUsed: nat
    var chain5: Chain
    var results: seq<int>
    ghost var stream: seq<Byte>   // everything given since the procedure began
    ghost var base: nat           // the place of data in it

    constructor (tests: Tests)
      ensures this.tests == tests && Shape() && procState == ProcInit
    {
      this.tests := tests;
      aux := new Byte[Test0Used](_ => 0);
      data, stream, base, procState, procRetry, testRun := [], [], 0, ProcInit, 0, 0;
      testState, bridge, bytesUsed, chain5, results := TestInit, 0, 0, InAux, seq(ProcReps, _ => 0);
    }

    ghost predicate Shape()
      reads this
    {
      aux.Length == Test0Used && |results| == ProcReps
    }

    /** data is the end of the stream, and the results so far are right. */
    ghost predicate Fed()
      reads this
    {
      && Shape() && base + |data| == |stream| && stream[base..] == data
      && Right(tests, stream, results, testRun)
    }

    /** At offs of data, while the block of result testRun is being gathered. */
    ghost predicate Gathering(offs: nat)
      reads this, aux
    {
      && Fed() && offs <= |data| && testRun <= ProcReps && (testRun == 0 || TestId(testRun) == 1)
      && bridge < BlockSize(testRun) && BlockAt(testRun) + bridge == base + offs
      && aux[..bridge] == stream[BlockAt(testRun)..base + offs]
    }

    /** At offs of data, behind the block that test 5 is to look at. */
    ghost predicate Chained(offs: nat)
      reads this, aux
    {
      && Fed() && offs <= |data| && 0 < testRun < ProcReps && TestId(testRun) == 5 && bridge == 0
      && BlockAt(testRun) + FipsLength == base + offs
      && (chain5.InData? ==> chain5.at + FipsLength <= |data|)
      && Chain5() == stream[BlockAt(testRun)..base + offs]
    }

    ghost function Chain5(): seq<Byte>
      requires Shape() && (chain5.InData? ==> chain5.at + FipsLength <= |data|)
      reads this, aux
    {
      match chain5
      case InData(at) => data[at..at + FipsLength]
      case InAux => aux[..FipsLength]
    }

    /** memcpy of k bytes of data at offs behind the bridge. */
    method Fill(offs: nat, k: nat)
      requires Shape() && offs + k <= |data| && bridge + k <= Test0Used
      modifies aux
      ensures aux[..bridge + k] == old(aux[..bridge]) + data[offs..offs + k]
    {
      for i := 0 to k
        invariant aux[..bridge + i] == old(aux[..bridge]) + data[offs..offs + i]
      {
        aux[bridge + i] := data[offs + i];
        assert aux[..bridge + i + 1] == aux[..bridge + i] + [data[offs + i]];
        assert data[offs..offs + i + 1] == data[offs..offs + i] + [data[offs + i]];
      }
    }

    /** Gathering on: k more bytes of data are in the bridge. */
    method Gather(offs: nat, k: nat, ghost block: nat)
      requires Shape() && base + |data| == |stream| && stream[base..] == data && offs + k <= |data|
        && bridge + k <= Test0Used
      requires block + bridge == base + offs && aux[..bridge] == stream[block..base + offs]
      modifies this`bridge, aux
      ensures bridge == old(bridge) + k && aux[..bridge] == stream[block..base + offs + k]
    {
      Fill(offs, k);
      bridge := bridge + k;
      InStream(stream, base, data, offs, k);
      assert stream[block..base + offs + k] == stream[block..base + offs] + stream[base + offs..base + offs + k];
    }

    method Test0(offs: nat) returns (offs': nat)
      requires testRun == 0 && Fed() && offs <= |data| && !testState.TestDone?
      requires if testState.TestInit? then base == 0 && offs == 0 else Gathering(offs)
      modifies this`testState, this`bridge, this`bytesUsed, this`results, this`testRun, aux
      ensures Gathering(offs') && !testState.TestInit?
      ensures testState.TestInput? ==> offs' == |data| && testRun == 0
      ensures testState.TestDone? ==> testRun == 1
    {
      if testState.TestInit? {
        testState := TestInput;
        bridge := 0;
        assert aux[..0] == stream[0..0];
      }
      var i, j := Test0Used - bridge, |data| - offs;
      var k := if j < i then j else i;
      Gather(offs, k, 0);
      offs' := offs + k;
      if bridge < Test0Used {
        return;
      }
      bytesUsed := bytesUsed + Test0Used;
      bridge := 0;
      results := results[0 := tests.test0(aux[..Test0Used])];
      testRun := 1;
      testState := TestDone;
      assert results[0] == Outcome(tests, stream, 0);
      assert aux[..0] == stream[base + offs'..base + offs'];
    }

    /** The part of fips140 that waits for its block: where it is, once it is complete. */
    method FindBlock(offs: nat) returns (found: bool, offs': nat)
      requires Gathering(offs) && 0 < testRun < ProcReps
      modifies this`bridge, this`bytesUsed, this`chain5, aux
      ensures !found ==> Gathering(offs') && offs' == |data|
      ensures found ==> Fed() && offs' <= |data| && bridge == 0 && BlockAt(testRun) + FipsLength == base + offs'
      ensures found && chain5.InData? ==> chain5.at + FipsLength <= |data|
      ensures found ==> Chain5() == stream[BlockAt(testRun)..base + offs']
    {
      var r := |data| - offs;
      if r + bridge < FipsLength {
        Gather(offs, r, BlockAt(testRun));
        return false, offs + r;
      }
      offs' := offs;
      if bridge != 0 {
        var i := FipsLength - bridge;
        Gather(offs, i, BlockAt(testRun));
        offs' := offs + i;
        bridge := 0;
        chain5 := InAux;
      } else {
        chain5 := InData(offs);
        offs' := offs + FipsLength;
        InStream(stream, base, data, offs, FipsLength);
      }
      bytesUsed := bytesUsed + FipsLength;
      found := true;
    }

    method Fips140(offs: nat) returns (offs': nat)
      requires Gathering(offs) && 0 < testRun < ProcReps && testState.TestInput?
      modifies this`testState, this`bridge, this`bytesUsed, this`chain5, this`results, this`testRun, aux
      ensures testState.TestInput? ==> Gathering(offs') && offs' == |data| && testRun == old(testRun)
      ensures testState.TestDone? ==> Chained(offs') && testRun == old(testRun) + 4
      ensures !testState.TestInit?
    {
      NextRepetition(testRun);
      var found;
      found, offs' := FindBlock(offs);
      if !found {
        return;
      }
      var block := match chain5 case InData(at) => data[at..at + FipsLength] case InAux => aux[..FipsLength];
      RunFips(block);
      testState := TestDone;
    }

    /** The part of fips140 that runs the tests. */
    method RunFips(block: seq<Byte>)
      requires Fed() && 0 < testRun < ProcReps && TestId(testRun) == 1 && BlockAt(testRun) + FipsLength <= |stream|
      requires block == stream[BlockAt(testRun)..BlockAt(testRun) + FipsLength]
      modifies this`results, this`testRun
      ensures Fed() && testRun == old(testRun) + 4
    {
      NextRepetition(testRun);
      var tid := testRun;
      results := results[tid := tests.fips(1, block)];
      results := results[tid + 1 := tests.fips(2, block)];
      results := results[tid + 2 := tests.fips(3, block)];
      results := results[tid + 3 := tests.fips(4, block)];
      FourRight(tests, stream, old(results), results, tid, block);
      testRun := tid + 4;
    }

    method Test5(offs: nat) returns (offs': nat)
      requires Chained(offs) && testState.TestInput?
      modifies this`testState, this`results, this`testRun
      ensures offs' == offs && Gathering(offs) && testState.TestDone? && testRun == old(testRun) + 1
    {
      NextRepetition(testRun - 4);
      var block := match chain5 case InData(at) => data[at..at + FipsLength] case InAux => aux[..FipsLength];
      results := results[testRun := tests.test5(testRun, block)];
      testRun := testRun + 1;
      testState := TestDone;
      assert aux[..0] == stream[base + offs..base + offs];
      return offs;
    }

    /** Between calls, while the procedure takes input. */
    ghost predicate Waiting()
      reads this, aux
    {
      procState == ProcInput && testState.TestInput? && testRun < ProcReps && Gathering(|data|)
    }

    /** One turn of the loop over the tests: more is false when the input is used up. */
    method RunTest(offs: nat) returns (more: bool, offs': nat)
      requires testRun < ProcReps && Fed() && offs <= |data| && !testState.TestDone?
      requires if testState.TestInit? then testRun == 0 && base == 0 && offs == 0
               else Gathering(offs) || Chained(offs)
      modifies this`testState, this`bridge, this`bytesUsed, this`chain5, this`results, this`testRun, aux
      ensures testState.TestInput? && offs' <= |data|
      ensures !more ==> Gathering(|data|) && testRun < ProcReps
      ensures more ==> Gathering(offs') || Chained(offs')
      ensures more ==> testRun > old(testRun)
    {
      TestIdRange(testRun);
      if testRun == 0 {
        offs' := Test0(offs);
      } else if TestId(testRun) < 5 {
        offs' := Fips140(offs);
      } else {
        offs' := Test5(offs);
      }
      if testState.TestDone? {
        testState := TestInput;
        more := true;
      } else {
        more := false;
      }
    }

    /** The evaluation: how many tests failed, by the lowest bit of their results. */
    method Count() returns (ct: nat)
      requires Shape() && testRun <= ProcReps
      ensures ct == Failures(results, testRun)
    {
      ct := 0;
      for i := 0 to testRun
        invariant ct == Failures(results, i)
      {
        ct := ct + results[i] % 2;
      }
    }

    /** aisProcedureA. However the stream is cut into buffers, its results are those of the first
        SampleSize bytes: until then the procedure waits for more, and then it is done, or to be
        run once more if exactly one test failed. */
    method Feed(buffer: seq<Byte>) returns (ct: nat)
      requires Shape() && (procState == ProcInput ==> Waiting()) && procState != ProcEval
      modifies this, aux
      ensures Shape() && stream == (if old(procState) == ProcDone then old(stream)
                                    else if old(procState) == ProcInput then old(stream) + buffer else buffer)
      ensures old(procState) == ProcDone ==> procState == ProcDone && results == old(results) && ct == 0
      ensures old(procState) != ProcDone && |stream| < SampleSize ==>
        Waiting() && ct == 0 && Right(tests, stream, results, testRun)
      ensures old(procState) != ProcDone && |stream| >= SampleSize ==>
        && Right(tests, stream, results, ProcReps) && ct == Failures(results, ProcReps)
        && procState == if ct == 1 && (old(procState) == ProcInit || old(procRetry) == 0) then ProcRetry else ProcDone
    {
      ct := 0;
      if procState == ProcDone {
        return;
      }
      if procState == ProcInit {
        bytesUsed := 0;
        procRetry := 0;
      }
      Take(buffer);
      var more := RunAll();
      if !more {
        return;
      }
      ct := Evaluate();
    }

    /** The loop over the tests: false when the input is used up before the last one. */
    method RunAll() returns (more: bool)
      requires procState == ProcInput && Fed() && testRun < ProcReps
      requires if testState.TestInit? then testRun == 0 && base == 0 else testState.TestInput? && Gathering(0)
      modifies this`testState, this`bridge, this`bytesUsed, this`chain5, this`results, this`testRun, aux
      ensures !more ==> Waiting() && |stream| < SampleSize
      ensures more ==> Fed() && testRun == ProcReps && |stream| >= SampleSize
    {
      var offs := 0;
      more := true;
      while more && testRun < ProcReps
        invariant Fed() && procState == ProcInput && 0 <= offs <= |data| && !testState.TestDone?
        invariant if testState.TestInit? then testRun == 0 && base == 0 && offs == 0 && more
                  else Gathering(offs) || Chained(offs) || !more
        invariant !more ==> Waiting()
        decreases more, ProcReps - testRun
      {
        more, offs := RunTest(offs);
      }
      if !more {
        Unfinished();
      }
    }

    /** TEST_EVAL. */
    method Evaluate() returns (ct: nat)
      requires Shape() && testRun == ProcReps
      modifies this`procState, this`procRetry
      ensures ct == Failures(results, ProcReps)
      ensures procState == if ct == 1 && old(procRetry) == 0 then ProcRetry else ProcDone
    {
      procState := ProcEval;
      ct := Count();
      if ct == 1 && procRetry == 0 {
        procRetry := ct;
        procState := ProcRetry;
      } else {
        procState := ProcDone;
      }
    }

    /** The start of a call: the buffer is the new end of the stream. */
    method Take(buffer: seq<Byte>)
      requires Shape() && (procState == ProcInput ==> Waiting()) && (procState in {ProcInit, ProcInput, ProcRetry})
      modifies this`procState, this`testState, this`testRun, this`data, this`stream, this`base
      ensures procState == ProcInput && Fed() && data == buffer
      ensures if old(procState) == ProcInput then testState.TestInput? && Gathering(0) && testRun == old(testRun)
              else testState.TestInit? && testRun == 0 && base == 0
      ensures stream == if old(procState) == ProcInput then old(stream) + buffer else buffer
    {
      if procState != ProcInput {
        procState, testState, testRun := ProcInput, TestInit, 0;
        stream := [];
      }
      RightPrefix(tests, stream, stream + buffer, results, testRun);
      base := |stream|;
      stream := stream + buffer;
      data := buffer;
      assert stream[base..] == data;
    }

    lemma Unfinished()
      requires Waiting()
      ensures |stream| < SampleSize
    {
    }
  }

  /** How many of the first n results have their lowest bit set. */
  function Failures(results: seq<int>, n: nat): nat
    requires n <= |results|
  {
    if n == 0 then 0 else Failures(results, n - 1) + results[n - 1] % 2
  }

  lemma TestIdRange(r: nat)
    ensures r > 0 ==> 1 <= TestId(r) <= 5
  {
  }

  lemma InStream(stream: seq<Byte>, base: nat, data: seq<Byte>, offs: nat, k: nat)
    requires base + |data| == |stream| && stream[base..] == data && offs + k <= |data|
    ensures stream[base + offs..base + offs + k] == data[offs..offs + k]
  {
    assert forall i :: 0 <= i < |data| ==> stream[base..][i] == stream[base + i];
  }

  /** The four results of tests 1 to 4. */
  lemma FourRight(t: Tests, stream: seq<Byte>, results: seq<int>, results': seq<int>, tid: nat, block: seq<Byte>)
    requires Right(t, stream, results, tid) && 0 < tid < ProcReps && TestId(tid) == 1
    requires BlockAt(tid) + FipsLength <= |stream| && block == stream[BlockAt(tid)..BlockAt(tid) + FipsLength]
    requires |results'| == ProcReps && (forall r :: 0 <= r < tid ==> results'[r] == results[r])
    requires tid + 4 <= ProcReps && forall r :: tid <= r < tid + 4 ==> results'[r] == t.fips(1 + r - tid, block)
    ensures Right(t, stream, results', tid + 4)
  {
    NextRepetition(tid);
    forall r | tid <= r < tid + 4
      ensures BlockAt(r) + BlockSize(r) <= |stream| && results'[r] == Outcome(t, stream, r)
    {
    }
  }
}
