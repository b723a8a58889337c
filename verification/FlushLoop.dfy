/**
 How often the copy loop of the JSON generator goes round when it flushes, as a function of the sizes alone.
 */
module FlushLoop {
  import opened Arithmetic

  /** What is left to copy after one round. */
  function Left(bufSize: nat, freePos: nat, len: nat): nat
    requires freePos < bufSize
  {
    len - Min(bufSize - freePos - 1, len)
  }

  /** The loop is over after exactly so many rounds: every round but the last is followed by a flush. */
  predicate Ends(bufSize: nat, freePos: nat, len: nat, rounds: nat)
    requires freePos < bufSize
    decreases rounds
  {
    if rounds == 0 then false
    else if Left(bufSize, freePos, len) == 0 then rounds == 1
    else Ends(bufSize, 0, Left(bufSize, freePos, len), rounds - 1)
  }

  /** The rounds that it takes to copy the rest into an empty buffer. */
  function Rounds(bufSize: nat, len: nat): nat
    requires bufSize >= 2
  {
    if len <= bufSize - 1 then 1 else 1 + Rounds(bufSize, len - (bufSize - 1))
  }

  lemma {:induction false} RoundsEnd(bufSize: nat, len: nat)
    requires bufSize >= 2
    ensures Ends(bufSize, 0, len, Rounds(bufSize, len))
  {
    if len <= bufSize - 1 {
    } else {
      RoundsEnd(bufSize, len - (bufSize - 1));
    }
  }

  lemma {:induction false} OneByteNeverEnds(len: nat, rounds: nat)
    requires len > 0
    ensures !Ends(1, 0, len, rounds)
  {
    if rounds == 0 {
    } else {
      OneByteNeverEnds(len, rounds - 1);
    }
  }

  ghost predicate Terminates(bufSize: nat, freePos: nat, len: nat)
    requires freePos < bufSize
  {
    exists rounds: nat :: Ends(bufSize, freePos, len, rounds)
  }

  /** The loop ends exactly if the buffer has at least two bytes or there is nothing to copy. */
  lemma LoopEnds(bufSize: nat, freePos: nat, len: nat)
    requires freePos < bufSize
    ensures Terminates(bufSize, freePos, len) <==> bufSize >= 2 || len == 0
  {
    if bufSize >= 2 || len == 0 {
      var more := Left(bufSize, freePos, len);
      if more > 0 { RoundsEnd(bufSize, more); }
      var rounds: nat := 1 + if more == 0 then 0 else Rounds(bufSize, more);
      assert Ends(bufSize, freePos, len, rounds);
    } else {
      assert bufSize == 1 && freePos == 0;
      forall rounds: nat ensures !Ends(bufSize, freePos, len, rounds) { OneByteNeverEnds(len, rounds); }
    }
  }

  /** Adding one character to a buffer of one byte goes round for ever. */
  lemma OneByteInstance()
    ensures !Terminates(1, 0, 1)
  {
    LoopEnds(1, 0, 1);
  }

  /** There is only one number of rounds. */
  lemma {:induction false} EndsOnce(bufSize: nat, freePos: nat, len: nat, r: nat, r': nat)
    requires freePos < bufSize && Ends(bufSize, freePos, len, r) && Ends(bufSize, freePos, len, r')
    ensures r == r'
    decreases r
  {
    if Left(bufSize, freePos, len) == 0 {
    } else {
      EndsOnce(bufSize, 0, Left(bufSize, freePos, len), r - 1, r' - 1);
    }
  }

  /** From here on, the loop ends when it would have ended from the start, less the rounds that are done. */
  ghost predicate Continues(bufSize: nat, start: nat, all: nat, freePos: nat, len: nat, done: nat)
    requires start < bufSize && freePos < bufSize
  {
    forall n: nat {:trigger Ends(bufSize, freePos, len, n)} ::
      Ends(bufSize, freePos, len, n) ==> Ends(bufSize, start, all, n + done)
  }

  lemma ContinuesStart(bufSize: nat, start: nat, all: nat)
    requires start < bufSize
    ensures Continues(bufSize, start, all, start, all, 0)
  {
  }

  lemma ContinuesRound(bufSize: nat, start: nat, all: nat, freePos: nat, len: nat, done: nat)
    requires start < bufSize && freePos < bufSize && Continues(bufSize, start, all, freePos, len, done)
    ensures var more := Left(bufSize, freePos, len);
            if more == 0 then Ends(bufSize, start, all, done + 1)
            else Continues(bufSize, start, all, 0, more, done + 1)
  {
    var more := Left(bufSize, freePos, len);
    if more == 0 {
      assert Ends(bufSize, freePos, len, 1);
    } else {
      forall n: nat | Ends(bufSize, 0, more, n) ensures Ends(bufSize, start, all, n + (done + 1)) {
        assert Ends(bufSize, freePos, len, n + 1);
      }
    }
  }
}
