/** That the compressor is greedy, of the bytes as a function: copies go on for as long as the next
    four bytes were last remembered somewhere, and the main loop until a scan finds nothing. What is
    remembered is pinned by the positions stored, from the empty table on. */
module GreedyForm {
  import opened Bytes
  import opened MatchLength
  import opened CompressedForm
  import opened BlockCompressor

  /** `table` is `was` with some positions of the input stored, each under its hash. */
  ghost predicate Grown(input: seq<byte>, was: seq<nat>, hash: nat -> nat, table: seq<nat>) {
    && InTable(hash, |was|)
    && exists stored: seq<nat> :: Inside(input, stored) && table == Storing(input, was, hash, stored)
  }

  lemma {:induction false} StoringMore(input: seq<byte>, table: seq<nat>, hash: nat -> nat, a: seq<nat>, b: seq<nat>)
    requires InTable(hash, |table|) && Inside(input, a) && Inside(input, b)
    ensures Inside(input, a + b)
    ensures Storing(input, Storing(input, table, hash, a), hash, b) == Storing(input, table, hash, a + b)
    decreases |b|
  {
    if b == [] {
      assert a + b == a;
    } else {
      var k := |b| - 1;
      StoringMore(input, table, hash, a, b[..k]);
      assert (a + b)[..|a + b| - 1] == a + b[..k];
    }
  }

  lemma GrownBy(input: seq<byte>, was: seq<nat>, hash: nat -> nat, mid: seq<nat>, stored: seq<nat>)
    requires Grown(input, was, hash, mid) && Inside(input, stored)
    ensures Grown(input, was, hash, Storing(input, mid, hash, stored))
  {
    var before: seq<nat> :| Inside(input, before) && mid == Storing(input, was, hash, before);
    StoringMore(input, was, hash, before, stored);
  }

  lemma GrownFurther(input: seq<byte>, was: seq<nat>, hash: nat -> nat, mid: seq<nat>, table: seq<nat>)
    requires Grown(input, was, hash, mid) && Grown(input, mid, hash, table)
    ensures Grown(input, was, hash, table)
  {
    var stored: seq<nat> :| Inside(input, stored) && table == Storing(input, mid, hash, stored);
    GrownBy(input, was, hash, mid, stored);
  }

  lemma GrownByNothing(input: seq<byte>, was: seq<nat>, hash: nat -> nat)
    requires InTable(hash, |was|)
    ensures Grown(input, was, hash, was)
  {
    assert Inside(input, []) && Storing(input, was, hash, []) == was;
  }

  /** The table, `was` at first, has just got the position `ip`, and the entry it replaced did not agree. */
  ghost predicate NewHere(input: seq<byte>, was: seq<nat>, hash: nat -> nat, ip: nat, after: seq<nat>) {
    exists before: seq<nat> :: Grown(input, was, hash, before) && Replaces(input, before, hash, ip, after)
  }

  ghost predicate Replaces(input: seq<byte>, before: seq<nat>, hash: nat -> nat, ip: nat, after: seq<nat>) {
    && InTable(hash, |before|) && ip + 4 <= |input|
    && after == before[hash(Load32(input, ip)) := ip]
    && !Agrees(input, before, hash, ip, before[hash(Load32(input, ip))])
  }

  lemma NewHereStill(input: seq<byte>, was: seq<nat>, hash: nat -> nat, mid: seq<nat>, ip: nat, after: seq<nat>)
    requires Grown(input, was, hash, mid) && NewHere(input, mid, hash, ip, after)
    ensures NewHere(input, was, hash, ip, after)
  {
    var before: seq<nat> :| Grown(input, mid, hash, before) && Replaces(input, before, hash, ip, after);
    GrownFurther(input, was, hash, mid, before);
  }

  /** With some positions stored over `was`, a scan from `ip` finds nothing. */
  ghost predicate NothingFrom(input: seq<byte>, was: seq<nat>, hash: nat -> nat, ip: nat, ipLimit: nat) {
    exists before: seq<nat>, probes: seq<nat>, at: nat, candidate: nat, after: seq<nat> ::
      Grown(input, was, hash, before) && Unmatched(input, before, hash, ip, ipLimit, probes, at, candidate, after)
  }

  ghost predicate Unmatched(input: seq<byte>, before: seq<nat>, hash: nat -> nat, ip: nat, ipLimit: nat,
                            probes: seq<nat>, at: nat, candidate: nat, after: seq<nat>) {
    && InTable(hash, |before|) && ipLimit + INPUT_MARGIN == |input|
    && Ends(input, before, hash, ip, ipLimit, probes, false, at, candidate, after)
  }

  lemma NothingStill(input: seq<byte>, was: seq<nat>, hash: nat -> nat, mid: seq<nat>, ip: nat, ipLimit: nat)
    requires Grown(input, was, hash, mid) && NothingFrom(input, mid, hash, ip, ipLimit)
    ensures NothingFrom(input, was, hash, ip, ipLimit)
  {
    var before: seq<nat>, probes: seq<nat>, at: nat, candidate: nat, after: seq<nat> :|
      Grown(input, mid, hash, before) && Unmatched(input, before, hash, ip, ipLimit, probes, at, candidate, after);
    GrownFurther(input, was, hash, mid, before);
  }

  // ---- Step 3 ----

  /** One round, in the terms of `Extends`. */
  lemma RoundExtends(input: seq<byte>, table: seq<nat>, hash: nat -> nat, candidate: nat, ip: nat, ipLimit: nat)
    requires ipLimit + INPUT_MARGIN == |input| <= BLOCK_SIZE && InTable(hash, |table|)
    requires candidate < ip < ipLimit && Behind(table, ip + 1)
    ensures var r := CopyRound(input, table, hash, candidate, ip, ipLimit);
      Extends(input, table, hash, candidate, ip, ipLimit, r.next, r.more, r.again, r.candidate, r.table)
  {
    var r := CopyRound(input, table, hash, candidate, ip, ipLimit);
    LongestMatches(input, candidate + 4, ip + 4);
    if r.more {
      StoringTwo(input, table, hash, r.next);
    }
  }

  lemma ExtendsGrows(input: seq<byte>, table: seq<nat>, hash: nat -> nat, candidate: nat, ip: nat, ipLimit: nat,
                     next: nat, again: bool, candidate': nat, after: seq<nat>)
    requires InTable(hash, |table|) && ipLimit + INPUT_MARGIN == |input| && 0 < next
    requires Extends(input, table, hash, candidate, ip, ipLimit, next, true, again, candidate', after)
    ensures Grown(input, table, hash, after) && (!again ==> NewHere(input, table, hash, next, after))
  {
    var t := Storing(input, table, hash, [next - 1]);
    StoringTwo(input, table, hash, next);
    assert Inside(input, [next - 1]) && Inside(input, [next - 1, next]);
    assert Grown(input, table, hash, t);
    assert !again ==> Replaces(input, t, hash, next, after);
  }

  /** Copies stop only near the end of the block, or where the four bytes differ from those at the
      position last stored for their hash. */
  lemma {:induction false} CopiesEnd(input: seq<byte>, table: seq<nat>, hash: nat -> nat, candidate: nat, ip: nat,
                                     ipLimit: nat)
    requires ipLimit + INPUT_MARGIN == |input| <= BLOCK_SIZE && InTable(hash, |table|)
    requires candidate < ip < ipLimit && Behind(table, ip + 1)
    ensures var r := Copies(input, table, hash, candidate, ip, ipLimit);
      && (r.more <==> r.next < ipLimit)
      && (r.more ==> Grown(input, table, hash, r.table) && NewHere(input, table, hash, r.next, r.table))
    decreases |input| - ip
  {
    CopiesUnfold(input, table, hash, candidate, ip, ipLimit);
    RoundExtends(input, table, hash, candidate, ip, ipLimit);
    var r := CopyRound(input, table, hash, candidate, ip, ipLimit);
    if r.more {
      ExtendsGrows(input, table, hash, candidate, ip, ipLimit, r.next, r.again, r.candidate, r.table);
    }
    if r.again {
      CopiesEnd(input, r.table, hash, r.candidate, r.next, ipLimit);
      var rest := Copies(input, r.table, hash, r.candidate, r.next, ipLimit);
      if rest.more {
        GrownFurther(input, table, hash, r.table, rest.table);
        NewHereStill(input, table, hash, r.table, rest.next, rest.table);
      }
    }
  }

  // ---- Step 1 ----

  /** A scan that has come to `ip` comes to an end: with what, the function says. */
  lemma {:induction false} ScanOutcome(input: seq<byte>, table: seq<nat>, hash: nat -> nat, from: nat, ipLimit: nat,
                                       probes: seq<nat>, ip: nat)
    returns (all: seq<nat>, at: nat, candidate: nat, after: seq<nat>)
    requires InTable(hash, |table|) && Behind(table, from) && ipLimit + INPUT_MARGIN == |input|
    requires from <= ip <= ipLimit + 1 && (probes != [] ==> ip <= ipLimit)
    requires Inside(input, probes) && Scanned(input, table, hash, from, probes, ip)
    ensures var r := ScanFrom(input, table, hash, from, 32, ipLimit);
      && Ends(input, table, hash, from, ipLimit, all, r.Match?, at, candidate, after)
      && (r.Match? ==> r == Match(at, candidate, after))
    decreases ipLimit + 1 - ip
  {
    var t, h, next := Storing(input, table, hash, probes), hash(Load32(input, ip)), ip + 1 + (ip - from) / 32;
    if next <= ipLimit && !Agrees(input, t, hash, ip, t[h]) {
      ProbeAgain(input, table, hash, from, probes, ip);
      all, at, candidate, after := ScanOutcome(input, table, hash, from, ipLimit, probes + [ip], next);
    } else {
      all, at, candidate := probes, ip, t[h];
      after := if next <= ipLimit then t[h := ip] else t;
      ScanEnds(input, table, hash, from, ipLimit, all, next <= ipLimit, at, candidate, after);
    }
  }

  lemma ScanLeaves(input: seq<byte>, table: seq<nat>, hash: nat -> nat, from: nat, ipLimit: nat)
    requires InTable(hash, |table|) && Behind(table, from) && ipLimit + INPUT_MARGIN == |input| && from <= ipLimit + 1
    ensures var r := ScanFrom(input, table, hash, from, 32, ipLimit);
      if r.Match? then Grown(input, table, hash, r.table)
      else NothingFrom(input, table, hash, from, ipLimit)
  {
    var probes, at, candidate, after := ScanOutcome(input, table, hash, from, ipLimit, [], from);
    if ScanFrom(input, table, hash, from, 32, ipLimit).Match? {
      ProbeAgain(input, table, hash, from, probes, at);
    } else {
      GrownByNothing(input, table, hash);
      assert Unmatched(input, table, hash, from, ipLimit, probes, at, candidate, after);
    }
  }

  // ---- The main loop ----

  lemma StretchEnds(input: seq<byte>, table: seq<nat>, hash: nat -> nat, ip: nat, from: nat, ipLimit: nat)
    requires ipLimit + INPUT_MARGIN == |input| <= BLOCK_SIZE && InTable(hash, |table|)
    requires from < ip <= ipLimit + 1 && Behind(table, ip)
    ensures var s := Stretch(input, table, hash, ip, from, ipLimit);
      && (s.more ==> Grown(input, table, hash, s.table))
      && (!s.more && s.next < ipLimit ==> s.next == from && NothingFrom(input, table, hash, ip, ipLimit))
  {
    ScanLeaves(input, table, hash, ip, ipLimit);
    match ScanFrom(input, table, hash, ip, 32, ipLimit)
    case NoMatch =>
    case Match(at, candidate, t) =>
      CopiesEnd(input, t, hash, candidate, at, ipLimit);
      var r := Copies(input, t, hash, candidate, at, ipLimit);
      if r.more {
        GrownFurther(input, table, hash, t, r.table);
      }
  }

  /** The main loop may end at `end`: what is left is less than the margin, or a scan of it, from its
      second byte on, finds nothing. */
  ghost predicate Exhausted(input: seq<byte>, was: seq<nat>, hash: nat -> nat, ipLimit: nat, end: nat) {
    end < ipLimit ==> NothingFrom(input, was, hash, end + 1, ipLimit)
  }

  lemma ExhaustedStill(input: seq<byte>, was: seq<nat>, hash: nat -> nat, mid: seq<nat>, ipLimit: nat, end: nat)
    requires Grown(input, was, hash, mid) && Exhausted(input, mid, hash, ipLimit, end)
    ensures Exhausted(input, was, hash, ipLimit, end)
  {
    if end < ipLimit {
      NothingStill(input, was, hash, mid, end + 1, ipLimit);
    }
  }

  lemma StretchExhausts(input: seq<byte>, table: seq<nat>, hash: nat -> nat, from: nat, ipLimit: nat, end: nat)
    requires ipLimit + INPUT_MARGIN == |input| <= BLOCK_SIZE && InTable(hash, |table|)
    requires from <= ipLimit && Behind(table, from + 1)
    requires var s := Stretch(input, table, hash, from + 1, from, ipLimit);
      if s.more then Exhausted(input, s.table, hash, ipLimit, end) else end == s.next
    ensures Exhausted(input, table, hash, ipLimit, end)
  {
    StretchEnds(input, table, hash, from + 1, from, ipLimit);
    var s := Stretch(input, table, hash, from + 1, from, ipLimit);
    if s.more {
      ExhaustedStill(input, table, hash, s.table, ipLimit, end);
    }
  }

  /** The last literal of a block, seen from any point of the main loop. */
  lemma {:induction false} MatchesEnd(input: seq<byte>, table: seq<nat>, hash: nat -> nat, from: nat, ipLimit: nat)
    requires ipLimit + INPUT_MARGIN == |input| <= BLOCK_SIZE && InTable(hash, |table|)
    requires from <= ipLimit && Behind(table, from + 1)
    ensures Exhausted(input, table, hash, ipLimit, Matches(input, table, hash, from + 1, from, ipLimit).1)
    decreases |input| - from
  {
    var s := Stretch(input, table, hash, from + 1, from, ipLimit);
    if s.more {
      MatchesEnd(input, s.table, hash, s.next, ipLimit);
    }
    EndOfMatches(input, table, hash, from, ipLimit);
    StretchExhausts(input, table, hash, from, ipLimit, Matches(input, table, hash, from + 1, from, ipLimit).1);
  }

  lemma EndOfMatches(input: seq<byte>, table: seq<nat>, hash: nat -> nat, from: nat, ipLimit: nat)
    requires ipLimit + INPUT_MARGIN == |input| <= BLOCK_SIZE && InTable(hash, |table|)
    requires from <= ipLimit && Behind(table, from + 1)
    ensures var s := Stretch(input, table, hash, from + 1, from, ipLimit);
      Matches(input, table, hash, from + 1, from, ipLimit).1 ==
      if s.more then Matches(input, s.table, hash, s.next + 1, s.next, ipLimit).1 else s.next
  {
    MatchesUnfold(input, table, hash, from + 1, from, ipLimit);
  }
}
