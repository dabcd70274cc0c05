/** How one chunk of input is cut into the slices handed to `write_sequence`.
    The loop in `main` counts the escape bytes of the chunk, and while more than
    one is left it cuts off the prefix that ends just before the next escape byte
    after position 0. `Cut` is the specification of that loop. */
module Segment {
  import opened Events

  /** `iter().filter(|b| **b == 0x1B).count()`. */
  function CountEsc(s: seq<byte>): (n: nat)
    ensures n <= |s|
  {
    if s == [] then 0 else (if s[0] == ESC then 1 else 0) + CountEsc(s[1..])
  }

  /** `iter().position(|b| *b == 0x1B)`: the index of the first escape byte. */
  function FirstEsc(s: seq<byte>): (r: Option<nat>)
    ensures r.Some? ==> r.value < |s| && s[r.value] == ESC
    ensures r.Some? ==> forall i :: 0 <= i < r.value ==> s[i] != ESC
    ensures r.None? ==> forall i :: 0 <= i < |s| ==> s[i] != ESC
  {
    if s == [] then None
    else if s[0] == ESC then Some(0)
    else match FirstEsc(s[1..])
      case None => None
      case Some(p) => Some(p + 1)
  }

  /** No escape byte after the first position. */
  predicate NoInnerEsc(s: seq<byte>)
  {
    forall i :: 1 <= i < |s| ==> s[i] != ESC
  }

  /** The slices cut off by the loop, and what is left of the chunk when it stops. */
  datatype Split = Split(segments: seq<seq<byte>>, rest: seq<byte>)

  /** `next_esc`: one past the position of the first escape byte in `s[1..]`,
      defined when `s` holds at least two escape bytes. */
  function CutPoint(s: seq<byte>): (next: nat)
    requires CountEsc(s) >= 2
    ensures 1 <= next < |s|
    ensures CountEsc(s[next..]) >= CountEsc(s) - 1
  {
    CutStep(s);
    FirstEsc(s[1..]).value + 1
  }

  /** The cut loop run with `k` as the initial escape count: each pass cuts at
      `next_esc`, one past the first escape byte of `s[1..]`, and lowers the count.
      The pieces, followed by the rest, give back the input: no byte is dropped,
      duplicated or reordered. */
  function Cut(s: seq<byte>, k: nat): (r: Split)
    requires k <= CountEsc(s)
    ensures Concat(r.segments) + r.rest == s
    decreases k
  {
    if k <= 1 then Split([], s)
    else
      var next := CutPoint(s);
      var tail := Cut(s[next..], k - 1);
      JoinStep(s, next, tail.segments, tail.rest);
      Split([s[..next]] + tail.segments, tail.rest)
  }

  /** The slices `main` hands to `write_sequence` for one chunk: the whole chunk
      when it holds at most one escape byte, otherwise the pieces cut by the loop. */
  function Sent(chunk: seq<byte>): seq<seq<byte>>
  {
    var k := CountEsc(chunk);
    if k > 1 then Cut(chunk, k).segments else [chunk]
  }

  /** What the loop leaves over and never hands to `write_sequence`. */
  function Unsent(chunk: seq<byte>): seq<byte>
  {
    var k := CountEsc(chunk);
    if k > 1 then Cut(chunk, k).rest else []
  }

  function Concat(segs: seq<seq<byte>>): seq<byte>
  {
    if segs == [] then [] else segs[0] + Concat(segs[1..])
  }

  lemma {:induction false} CountEscAppend(a: seq<byte>, b: seq<byte>)
    ensures CountEsc(a + b) == CountEsc(a) + CountEsc(b)
    decreases |a|
  {
    if a == [] {
      assert a + b == b;
    } else {
      assert (a + b)[1..] == a[1..] + b;
      CountEscAppend(a[1..], b);
    }
  }

  /** The count is the multiplicity of the escape byte in the slice. */
  lemma {:induction false} CountEscMultiset(s: seq<byte>)
    ensures CountEsc(s) == multiset(s)[ESC]
    decreases |s|
  {
    if s != [] {
      CountEscMultiset(s[1..]);
      assert s == [s[0]] + s[1..];
    }
  }

  lemma {:induction false} CountEscNone(s: seq<byte>)
    requires forall i :: 0 <= i < |s| ==> s[i] != ESC
    ensures CountEsc(s) == 0
    decreases |s|
  {
    if s != [] {
      CountEscNone(s[1..]);
    }
  }

  /** One pass of the loop is well defined whenever at least two escape bytes
      remain: the `.unwrap()` on the search finds an escape byte after position 0,
      the cut point lies strictly inside the slice, and the piece cut off holds an
      escape byte exactly when the slice starts with one. */
  lemma {:induction false} CutStep(s: seq<byte>)
    requires CountEsc(s) >= 2
    ensures |s| >= 2 && FirstEsc(s[1..]).Some?
    ensures var next := FirstEsc(s[1..]).value + 1;
      1 <= next < |s| && s[next] == ESC && NoInnerEsc(s[..next]) &&
      CountEsc(s[next..]) == CountEsc(s) - (if s[0] == ESC then 1 else 0)
  {
    assert s != [];
    if FirstEsc(s[1..]).None? {
      CountEscNone(s[1..]);
      assert false;
    }
    var next := FirstEsc(s[1..]).value + 1;
    assert s == s[..next] + s[next..];
    CountEscAppend(s[..next], s[next..]);
    assert s[..next][1..] == s[1..next];
    assert forall i :: 0 <= i < |s[1..next]| ==> s[1..next][i] != ESC;
    CountEscNone(s[1..next]);
  }

  /** One pass of the loop: the first piece ends before the next escape byte,
      the remaining pieces are those of the rest with the count lowered by one. */
  lemma CutUnfold(s: seq<byte>, k: nat)
    requires 2 <= k <= CountEsc(s)
    ensures k - 1 <= CountEsc(s[CutPoint(s)..])
    ensures Cut(s, k).segments == [s[..CutPoint(s)]] + Cut(s[CutPoint(s)..], k - 1).segments
    ensures Cut(s, k).rest == Cut(s[CutPoint(s)..], k - 1).rest
  {
  }

  /** What is known of the cut point: the escape byte it finds, none before it
      after position 0, and the escape bytes left after it. */
  lemma CutPointFacts(s: seq<byte>)
    requires CountEsc(s) >= 2
    ensures FirstEsc(s[1..]).Some? && CutPoint(s) == FirstEsc(s[1..]).value + 1
    ensures s[CutPoint(s)] == ESC && NoInnerEsc(s[..CutPoint(s)])
    ensures CountEsc(s[CutPoint(s)..]) == CountEsc(s) - (if s[0] == ESC then 1 else 0)
  {
    CutStep(s);
  }

  /** The cut loop makes `k - 1` pieces: it runs exactly `k - 1` times. */
  lemma {:induction false} CutLength(s: seq<byte>, k: nat)
    requires 1 <= k <= CountEsc(s)
    ensures |Cut(s, k).segments| == k - 1
    decreases k
  {
    if k > 1 {
      CutUnfold(s, k);
      CutLength(s[CutPoint(s)..], k - 1);
    }
  }

  /** Putting a prefix back in front of the pieces of the suffix. */
  lemma JoinStep(s: seq<byte>, next: nat, segs: seq<seq<byte>>, rest: seq<byte>)
    requires next <= |s|
    requires Concat(segs) + rest == s[next..]
    ensures Concat([s[..next]] + segs) + rest == s
  {
  }

  /** Every piece is non-empty and holds no escape byte after its first position;
      the first piece starts where the input does, every later one with an escape byte. */
  lemma {:induction false} CutPieces(s: seq<byte>, k: nat)
    requires 2 <= k <= CountEsc(s)
    ensures var segs := Cut(s, k).segments;
      (forall j :: 0 <= j < |segs| ==> |segs[j]| >= 1 && NoInnerEsc(segs[j])) &&
      (forall j :: 1 <= j < |segs| ==> segs[j][0] == ESC) &&
      |segs| >= 1 && segs[0][0] == s[0]
    decreases k
  {
    CutPointFacts(s);
    CutUnfold(s, k);
    var next := CutPoint(s);
    var tail := Cut(s[next..], k - 1);
    var segs := Cut(s, k).segments;
    if k > 2 {
      CutPieces(s[next..], k - 1);
      forall j | 1 <= j < |segs|
        ensures |segs[j]| >= 1 && NoInnerEsc(segs[j]) && segs[j][0] == ESC
      {
        assert segs[j] == tail.segments[j - 1];
      }
    }
  }

  /** The loop stops on a non-empty rest that starts with an escape byte and holds
      `CountEsc(s) - k + 2` escape bytes, one fewer if `s` starts with one. */
  lemma {:induction false} CutRest(s: seq<byte>, k: nat)
    requires 2 <= k <= CountEsc(s)
    ensures var rest := Cut(s, k).rest;
      |rest| >= 1 && rest[0] == ESC &&
      CountEsc(rest) == CountEsc(s) - k + 2 - (if s[0] == ESC then 1 else 0)
    decreases k
  {
    CutPointFacts(s);
    CutUnfold(s, k);
    if k > 2 {
      CutRest(s[CutPoint(s)..], k - 1);
    }
  }

  /** What `main` hands to `write_sequence`, followed by what it leaves over, is
      the chunk. With at most one escape byte the chunk goes whole in one call and
      nothing is left over; otherwise there is one call per escape byte but the
      last, and something is always left over. */
  lemma {:induction false} SentCover(chunk: seq<byte>)
    ensures Concat(Sent(chunk)) + Unsent(chunk) == chunk
    ensures CountEsc(chunk) <= 1 ==> Sent(chunk) == [chunk] && Unsent(chunk) == []
    ensures CountEsc(chunk) > 1 ==> |Sent(chunk)| == CountEsc(chunk) - 1
    ensures Unsent(chunk) != [] <==> CountEsc(chunk) > 1
  {
    var k := CountEsc(chunk);
    if k > 1 {
      CutLength(chunk, k);
      CutRest(chunk, k);
    } else {
      assert Concat([chunk]) == chunk + Concat([]);
    }
  }

  /** The slices of a non-empty chunk are non-empty. With more than one escape
      byte no slice holds an escape byte after its first position, every slice
      but the first starts with one, and the remainder left over starts with an
      escape byte and holds one escape-led sequence when the chunk starts with an
      escape byte, two when it does not. */
  lemma {:induction false} SentPieces(chunk: seq<byte>)
    ensures |chunk| > 0 ==> forall j :: 0 <= j < |Sent(chunk)| ==> |Sent(chunk)[j]| > 0
    ensures CountEsc(chunk) > 1 ==>
      forall j :: 0 <= j < |Sent(chunk)| ==>
        NoInnerEsc(Sent(chunk)[j]) && (j > 0 ==> Sent(chunk)[j][0] == ESC)
    ensures CountEsc(chunk) > 1 ==>
      (|Unsent(chunk)| > 0 && Unsent(chunk)[0] == ESC &&
       CountEsc(Unsent(chunk)) == (if chunk[0] == ESC then 1 else 2))
  {
    var k := CountEsc(chunk);
    if k > 1 {
      CutPieces(chunk, k);
      CutRest(chunk, k);
    }
  }

  /** Two escape sequences in one chunk: only the first reaches `write_sequence`. */
  lemma CutExampleTwoSequences()
    ensures Sent([ESC, 0x61, ESC, 0x62]) == [[ESC, 0x61]]
    ensures Unsent([ESC, 0x61, ESC, 0x62]) == [ESC, 0x62]
  {
    var s: seq<byte> := [ESC, 0x61, ESC, 0x62];
    assert CountEsc(s[3..]) == 0;
    assert CountEsc(s[2..]) == 1;
    assert CountEsc(s[1..]) == 1;
    assert CountEsc(s) == 2;
    assert s[1..][1..] == s[2..];
    assert FirstEsc(s[1..]) == Some(1);
    assert Cut(s, 2) == Split([s[..2]], s[2..]);
    assert s[..2] == [ESC, 0x61] && s[2..] == [ESC, 0x62];
  }

  /** A chunk that does not start with an escape byte: its first cut uses up a
      count without an escape byte, and both escape sequences are left over. */
  lemma CutExampleLeadingText()
    ensures Sent([0x78, ESC, 0x61, ESC, 0x62]) == [[0x78]]
    ensures Unsent([0x78, ESC, 0x61, ESC, 0x62]) == [ESC, 0x61, ESC, 0x62]
  {
    var s: seq<byte> := [0x78, ESC, 0x61, ESC, 0x62];
    assert CountEsc(s[4..]) == 0;
    assert CountEsc(s[3..]) == 1;
    assert CountEsc(s[2..]) == 1;
    assert CountEsc(s[1..]) == 2;
    assert CountEsc(s) == 2;
    assert FirstEsc(s[1..]) == Some(0);
    assert Cut(s, 2) == Split([s[..1]], s[1..]);
    assert s[..1] == [0x78] && s[1..] == [ESC, 0x61, ESC, 0x62];
  }

  /** A single escape sequence goes whole to `write_sequence`. */
  lemma CutExampleSingle()
    ensures Sent([ESC, 0x5B, 0x41]) == [[ESC, 0x5B, 0x41]]
  {
    var s: seq<byte> := [ESC, 0x5B, 0x41];
    assert CountEsc(s[2..]) == 0;
    assert CountEsc(s[1..]) == 0;
    assert CountEsc(s) == 1;
  }
}
