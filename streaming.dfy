/**
 * The chunked streaming loop of the encryption panel (`EncPanel._cipher_bootstrap`
 * in main.py) and the chunk constants it uses (libs/misc.py, misc.py).
 *
 * The input file is a byte sequence whose length is the `size` that `open_files`
 * measured; the output file is the sequence the loop appends to. The cipher
 * (`maes.cbc_aes` or `maes.inv_cbc_aes`) is a function parameter taking the chunk
 * and the IV and returning the transformed chunk and the IV to chain into the next
 * call, as in the CBC mode of section 6.2 of NIST SP 800-38A.
 */
module Streaming {
  import opened Common

  /** Bytes per full chunk: 8192 * 128. */
  const CHUNK_SIZE: nat := 8192 * 128

  /** A chunk plus one 16-byte cipher block: a tail up to this long is read whole. */
  const CHUNK_SIZE_AND_A_BLOCK: nat := CHUNK_SIZE + 16

  /** A cipher call: (chunk, iv) -> (transformed chunk, next iv). */
  type Cipher = (Bytes, Bytes) -> (Bytes, Bytes)

  /**
   * One pass of the loop body: the bytes read, the IV handed to the cipher,
   * what the cipher returned, and the arguments of the progress callback.
   */
  datatype Round = Round(chunk: Bytes, ivIn: Bytes, out: Bytes, ivOut: Bytes, processed: nat, size: nat)

  /** How many bytes the loop reads when `rest` bytes are left. */
  function ReadSize(rest: nat): (n: nat)
    requires rest > 0
    ensures 0 < n <= rest && n <= CHUNK_SIZE_AND_A_BLOCK
    ensures n == rest <==> rest <= CHUNK_SIZE_AND_A_BLOCK
    ensures n < rest ==> n == CHUNK_SIZE && rest - n > 16
  {
    if rest > CHUNK_SIZE_AND_A_BLOCK then CHUNK_SIZE else rest
  }

  function Sum(s: seq<nat>): nat
  {
    if s == [] then 0 else s[0] + Sum(s[1..])
  }

  /** The read sizes the loop issues for an input of `rest` bytes, in order. */
  function ChunkSizes(rest: nat): (r: seq<nat>)
    decreases rest
    ensures Sum(r) == rest
    ensures r == [] <==> rest == 0
    ensures forall i :: 0 <= i < |r| ==> 0 < r[i] <= CHUNK_SIZE_AND_A_BLOCK
    ensures forall i :: 0 <= i < |r| - 1 ==> r[i] == CHUNK_SIZE
    ensures |r| > 1 ==> r[|r| - 1] > 16
  {
    if rest == 0 then []
    else
      var n := ReadSize(rest);
      if n == rest then [n] else [n] + ChunkSizes(rest - n)
  }

  /** The rounds the loop performs on the unread part `rest` of the input. */
  function Run(f: Cipher, iv: Bytes, rest: Bytes, processed: nat): seq<Round>
    decreases |rest|
  {
    if |rest| == 0 then []
    else
      var n := ReadSize(|rest|);
      var (out, next) := f(rest[..n], iv);
      [Round(rest[..n], iv, out, next, processed + n, n)] + Run(f, next, rest[n..], processed + n)
  }

  /** The output file: the cipher outputs appended in read order. */
  function Written(rounds: seq<Round>): Bytes
  {
    if rounds == [] then [] else rounds[0].out + Written(rounds[1..])
  }

  /** The bytes read, in read order. */
  function Read(rounds: seq<Round>): Bytes
  {
    if rounds == [] then [] else rounds[0].chunk + Read(rounds[1..])
  }

  function Sizes(rounds: seq<Round>): (r: seq<nat>)
    ensures |r| == |rounds|
    ensures forall i :: 0 <= i < |r| ==> r[i] == rounds[i].size
  {
    if rounds == [] then [] else [rounds[0].size] + Sizes(rounds[1..])
  }

  /** One unfolding of `Run`, with the chunk read from position `pos` of `input`. */
  lemma RunStep(f: Cipher, iv: Bytes, input: Bytes, pos: nat, n: nat)
    requires pos < |input| && n == ReadSize(|input| - pos)
    ensures Run(f, iv, input[pos..], pos)
         == [Round(input[pos..pos + n], iv, f(input[pos..pos + n], iv).0, f(input[pos..pos + n], iv).1, pos + n, n)]
            + Run(f, f(input[pos..pos + n], iv).1, input[pos + n..], pos + n)
  {
    var rest := input[pos..];
    assert rest[..n] == input[pos..pos + n];
    assert rest[n..] == input[pos + n..];
  }

  lemma WrittenAppend(a: seq<Round>, b: seq<Round>)
    ensures Written(a + b) == Written(a) + Written(b)
  {
    if a == [] {
      assert a + b == b;
    } else {
      assert (a + b)[0] == a[0];
      assert (a + b)[1..] == a[1..] + b;
      WrittenAppend(a[1..], b);
    }
  }

  /** What one pass of the loop body does to the loop invariant of `CipherBootstrap`. */
  lemma BootstrapStep(f: Cipher, initVector: Bytes, input: Bytes, iv: Bytes, pos: nat, n: nat, rounds: seq<Round>)
    requires pos < |input| && n == ReadSize(|input| - pos)
    requires rounds + Run(f, iv, input[pos..], pos) == Run(f, initVector, input, 0)
    ensures var chunk := input[pos..pos + n];
            var round := Round(chunk, iv, f(chunk, iv).0, f(chunk, iv).1, pos + n, n);
            && (rounds + [round]) + Run(f, round.ivOut, input[pos + n..], pos + n) == Run(f, initVector, input, 0)
            && Written(rounds + [round]) == Written(rounds) + round.out
  {
    var chunk := input[pos..pos + n];
    var round := Round(chunk, iv, f(chunk, iv).0, f(chunk, iv).1, pos + n, n);
    RunStep(f, iv, input, pos, n);
    assert (rounds + [round]) + Run(f, round.ivOut, input[pos + n..], pos + n)
        == rounds + ([round] + Run(f, round.ivOut, input[pos + n..], pos + n));
    WrittenAppend(rounds, [round]);
    assert Written([round]) == round.out + Written([]);
  }

  /**
   * The loop of `_cipher_bootstrap`: reads the input chunk by chunk, passes each
   * chunk with the current IV to `f`, appends the result to the output, chains
   * the returned IV and reports (processed, chunk size) once per chunk.
   */
  method CipherBootstrap(f: Cipher, initVector: Bytes, input: Bytes) returns (output: Bytes, rounds: seq<Round>)
    ensures rounds == Run(f, initVector, input, 0)
    ensures output == Written(rounds)
  {
    var size := |input|;
    var restSize: nat := size;
    var processedSize: nat := 0;
    var iv := initVector;
    output := [];
    rounds := [];
    while true
      invariant processedSize + restSize == size
      invariant rounds + Run(f, iv, input[processedSize..], processedSize) == Run(f, initVector, input, 0)
      invariant output == Written(rounds)
      decreases restSize
    {
      var n: nat;
      if restSize == 0 {
        break;
      } else if restSize > CHUNK_SIZE_AND_A_BLOCK {
        n := CHUNK_SIZE;
      } else {
        n := restSize;
      }
      var chunk := input[processedSize..processedSize + n];
      var out, next := f(chunk, iv).0, f(chunk, iv).1;
      BootstrapStep(f, initVector, input, iv, processedSize, n, rounds);
      output := output + out;
      rounds := rounds + [Round(chunk, iv, out, next, processedSize + n, n)];
      iv := next;
      restSize := restSize - n;
      processedSize := processedSize + n;
    }
    assert input[processedSize..] == [];
  }

  /** The reads the loop issues have the sizes `ChunkSizes` gives, in order. */
  lemma {:induction false} RunFollowsChunkSizes(f: Cipher, iv: Bytes, input: Bytes, processed: nat)
    ensures Sizes(Run(f, iv, input, processed)) == ChunkSizes(|input|)
    decreases |input|
  {
    if |input| > 0 {
      var n := ReadSize(|input|);
      var next := f(input[..n], iv).1;
      RunFollowsChunkSizes(f, next, input[n..], processed + n);
      assert Run(f, iv, input, processed)[1..] == Run(f, next, input[n..], processed + n);
      assert n == |input| ==> |input[n..]| == 0;
    }
  }

  /** The chunks read, in read order, are exactly the input: no byte skipped or read twice. */
  lemma {:induction false} RunReadsInput(f: Cipher, iv: Bytes, input: Bytes, processed: nat)
    ensures Read(Run(f, iv, input, processed)) == input
    decreases |input|
  {
    if |input| > 0 {
      var n := ReadSize(|input|);
      var next := f(input[..n], iv).1;
      RunReadsInput(f, next, input[n..], processed + n);
      assert Run(f, iv, input, processed)[1..] == Run(f, next, input[n..], processed + n);
      assert input == input[..n] + input[n..];
    }
  }

  /** Every round's size is the length of the chunk it read and its callback size. */
  lemma {:induction false} RunRoundSizes(f: Cipher, iv: Bytes, input: Bytes, processed: nat)
    ensures forall k :: 0 <= k < |Run(f, iv, input, processed)| ==>
      var r := Run(f, iv, input, processed)[k];
      0 < r.size == |r.chunk| <= CHUNK_SIZE_AND_A_BLOCK
    decreases |input|
  {
    if |input| > 0 {
      var n := ReadSize(|input|);
      RunRoundSizes(f, f(input[..n], iv).1, input[n..], processed + n);
    }
  }

  /**
   * IV chaining: the first call gets the caller's IV and every later call gets
   * exactly the IV the previous call returned; the chain is never reset.
   */
  lemma {:induction false} RunChainsIv(f: Cipher, iv: Bytes, input: Bytes, processed: nat)
    ensures var r := Run(f, iv, input, processed);
      && (|r| > 0 ==> r[0].ivIn == iv)
      && (forall k :: 0 <= k < |r| ==> (r[k].out, r[k].ivOut) == f(r[k].chunk, r[k].ivIn))
      && (forall k :: 0 <= k < |r| - 1 ==> r[k + 1].ivIn == r[k].ivOut)
    decreases |input|
  {
    if |input| > 0 {
      var n := ReadSize(|input|);
      var next := f(input[..n], iv).1;
      RunChainsIv(f, next, input[n..], processed + n);
      var r := Run(f, iv, input, processed);
      assert r[1..] == Run(f, next, input[n..], processed + n);
    }
  }

  /**
   * Progress: each callback reports the running total, which grows by the chunk
   * size at every round, so it strictly increases and ends at `processed + |input|`.
   */
  lemma {:induction false} RunProgress(f: Cipher, iv: Bytes, input: Bytes, processed: nat)
    ensures var r := Run(f, iv, input, processed);
      && (|r| > 0 ==> r[0].processed == processed + r[0].size && r[|r| - 1].processed == processed + |input|)
      && (forall k :: 0 < k < |r| ==> r[k].processed == r[k - 1].processed + r[k].size)
      && (forall i, j :: 0 <= i < j < |r| ==> r[i].processed < r[j].processed)
    decreases |input|
  {
    if |input| > 0 {
      var n := ReadSize(|input|);
      var next := f(input[..n], iv).1;
      RunProgress(f, next, input[n..], processed + n);
      RunRoundSizes(f, next, input[n..], processed + n);
      var r := Run(f, iv, input, processed);
      assert r[1..] == Run(f, next, input[n..], processed + n);
      assert forall k :: 1 <= k < |r| ==> r[k] == r[1..][k - 1];
    }
  }

  /** An empty input makes no cipher call, writes nothing and reports no progress. */
  lemma EmptyInputNoRounds(f: Cipher, iv: Bytes, input: Bytes)
    ensures Run(f, iv, input, 0) == [] <==> |input| == 0
  {
  }

  /** An input of 1,500,000 bytes is read as 1,048,576 bytes and then 451,424 bytes. */
  lemma ExampleChunking()
    ensures ChunkSizes(1500000) == [1048576, 451424]
  {
    assert ChunkSizes(451424) == [451424];
  }
}
