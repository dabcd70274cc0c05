/** The read-render-decode loop of `main` and the `write_sequence` helper, with
    the terminal I/O stripped: what is written becomes a list of output lines,
    the event parser a `Decoder` parameter, and the input a list of chunks. */
module InputLoop {
  import opened Events
  import opened Rendering
  import opened Segment
  import opened Quit

  /** A line written to the terminal: the rendered bytes of a slice, or the
      debug form of the event decoded from it. */
  datatype OutputLine = RenderedLine(text: string) | EventLine(event: Event)

  /** What `write_sequence` prints, and the event it returns. */
  datatype Written = Written(lines: seq<OutputLine>, event: Option<Event>)

  /** `write_sequence`: print the rendered slice, decode it, print the event if any. */
  function WriteSequence(bytes: seq<byte>, decode: Decoder): (w: Written)
    ensures w.event == Collapse(decode(bytes))
    ensures |w.lines| == (if w.event.Some? then 2 else 1)
    ensures w.lines[0] == RenderedLine(Render(bytes))
    ensures w.event.Some? ==> w.lines[1] == EventLine(w.event.value)
  {
    var event := Collapse(decode(bytes));
    var line := RenderedLine(Render(bytes));
    Written([line] + (if event.Some? then [EventLine(event.value)] else []), event)
  }

  /** The events `write_sequence` returns for each slice, in order. */
  function Decoded(segs: seq<seq<byte>>, decode: Decoder): (evs: seq<Option<Event>>)
    ensures |evs| == |segs|
  {
    seq(|segs|, i requires 0 <= i < |segs| => Collapse(decode(segs[i])))
  }

  /** Everything `write_sequence` prints for the slices, in order. */
  function Transcript(segs: seq<seq<byte>>, decode: Decoder): seq<OutputLine>
  {
    if segs == [] then []
    else Transcript(segs[..|segs| - 1], decode) + WriteSequence(segs[|segs| - 1], decode).lines
  }

  /** The step both branches of `main` share: call `write_sequence` on a slice and,
      when it returns a key event of kind Press, count a 'q' or reset on any other key. */
  method WriteAndCount(bytes: seq<byte>, decode: Decoder, q0: nat) returns (lines: seq<OutputLine>, q: nat)
    ensures lines == WriteSequence(bytes, decode).lines
    ensures q == QuitStep(q0, Collapse(decode(bytes)))
  {
    var w := WriteSequence(bytes, decode);
    lines, q := w.lines, q0;
    if w.event.Some? && w.event.value.Key? {
      var key := w.event.value.key;
      if key.kind == Press {
        if key.code == QUIT_KEY {
          q := q + 1;
        } else {
          q := 0;
        }
      }
    }
  }

  /** One non-empty chunk, as `main` handles it: count its escape bytes; with more
      than one, cut and write one slice per pass while the count exceeds 1;
      otherwise write the whole chunk; update `q_key_count` from each returned key
      press; finally test the counter. */
  method ProcessChunk(chunk: seq<byte>, decode: Decoder, q0: nat)
    returns (sent: seq<seq<byte>>, out: seq<OutputLine>, q: nat, quit: bool)
    requires 0 < |chunk| <= BUFFER_SIZE
    ensures sent == Sent(chunk)
    ensures CountEsc(chunk) <= 1 ==> sent == [chunk]
    ensures CountEsc(chunk) > 1 ==> |sent| == CountEsc(chunk) - 1
    ensures Concat(sent) + Unsent(chunk) == chunk
    ensures out == Transcript(sent, decode)
    ensures q == QuitFold(q0, Decoded(sent, decode))
    ensures quit <==> ShouldQuit(q)
  {
    sent, out, q := [], [], q0;
    var readBytes := chunk;
    var escSeqCount := CountEsc(readBytes);
    ghost var whole := Cut(chunk, escSeqCount);
    if escSeqCount > 1 {
      while escSeqCount > 1
        invariant 1 <= escSeqCount <= CountEsc(readBytes)
        invariant whole.segments == sent + Cut(readBytes, escSeqCount).segments
        invariant whole.rest == Cut(readBytes, escSeqCount).rest
        invariant out == Transcript(sent, decode)
        invariant q == QuitFold(q0, Decoded(sent, decode))
        decreases escSeqCount
      {
        // the count invariant is what keeps the `.unwrap()` from failing
        CutLoopStep(whole, readBytes, escSeqCount, sent, out, q, q0, decode);
        var nextEsc := FirstEsc(readBytes[1..]).value + 1;
        var piece := readBytes[..nextEsc];
        var lines;
        lines, q := WriteAndCount(piece, decode, q);
        sent := sent + [piece];
        out := out + lines;
        escSeqCount := escSeqCount - 1;
        readBytes := readBytes[nextEsc..];
      }
      assert sent == Sent(chunk);
    } else {
      var lines;
      lines, q := WriteAndCount(readBytes, decode, q);
      AppendSlice([], readBytes, decode, q0);
      sent := [readBytes];
      out := lines;
      assert sent == Sent(chunk);
    }
    SentCover(chunk);
    quit := q > 1;
  }

  /** One pass of the cut loop keeps its invariant. */
  lemma CutLoopStep(whole: Split, readBytes: seq<byte>, count: nat, sent: seq<seq<byte>>,
                    out: seq<OutputLine>, q: nat, q0: nat, decode: Decoder)
    requires 2 <= count <= CountEsc(readBytes)
    requires whole.segments == sent + Cut(readBytes, count).segments
    requires whole.rest == Cut(readBytes, count).rest
    requires out == Transcript(sent, decode)
    requires q == QuitFold(q0, Decoded(sent, decode))
    ensures |readBytes| >= 2 && FirstEsc(readBytes[1..]).Some?
    ensures FirstEsc(readBytes[1..]).value + 1 == CutPoint(readBytes)
    ensures var next := CutPoint(readBytes);
      var piece := readBytes[..next];
      count - 1 <= CountEsc(readBytes[next..]) &&
      whole.segments == (sent + [piece]) + Cut(readBytes[next..], count - 1).segments &&
      whole.rest == Cut(readBytes[next..], count - 1).rest &&
      out + WriteSequence(piece, decode).lines == Transcript(sent + [piece], decode) &&
      QuitStep(q, Collapse(decode(piece))) == QuitFold(q0, Decoded(sent + [piece], decode))
  {
    CutPointFacts(readBytes);
    CutUnfold(readBytes, count);
    var next := CutPoint(readBytes);
    var piece := readBytes[..next];
    var tail := Cut(readBytes[next..], count - 1).segments;
    assert whole.segments == (sent + [piece]) + tail by {
      assert whole.segments == sent + ([piece] + tail);
    }
    AppendSlice(sent, piece, decode, q0);
  }

  /** Writing one more slice extends the transcript by its lines and runs the
      counter over its event. */
  lemma {:induction false} AppendSlice(segs: seq<seq<byte>>, seg: seq<byte>, decode: Decoder, q0: nat)
    ensures Transcript(segs + [seg], decode) == Transcript(segs, decode) + WriteSequence(seg, decode).lines
    ensures QuitFold(q0, Decoded(segs + [seg], decode))
         == QuitStep(QuitFold(q0, Decoded(segs, decode)), Collapse(decode(seg)))
  {
    var all := segs + [seg];
    assert all[..|all| - 1] == segs;
    var evs := Decoded(all, decode);
    assert evs[..|evs| - 1] == Decoded(segs, decode);
  }

  /** The events one read contributes: none for an empty read, otherwise those
      of the slices handed to `write_sequence`. */
  function ChunkEvents(chunk: seq<byte>, decode: Decoder): seq<Option<Event>>
  {
    if |chunk| == 0 then [] else Decoded(Sent(chunk), decode)
  }

  /** The lines one read produces. */
  function ChunkOutput(chunk: seq<byte>, decode: Decoder): seq<OutputLine>
  {
    if |chunk| == 0 then [] else Transcript(Sent(chunk), decode)
  }

  /** `q_key_count` after a run of reads, starting from 0. */
  function Counter(chunks: seq<seq<byte>>, decode: Decoder): nat
  {
    if chunks == [] then 0
    else QuitFold(Counter(chunks[..|chunks| - 1], decode), ChunkEvents(chunks[|chunks| - 1], decode))
  }

  /** Everything printed over a run of reads. */
  function Output(chunks: seq<seq<byte>>, decode: Decoder): seq<OutputLine>
  {
    if chunks == [] then []
    else Output(chunks[..|chunks| - 1], decode) + ChunkOutput(chunks[|chunks| - 1], decode)
  }

  /** All the events decoded over a run of reads, in order. */
  function AllEvents(chunks: seq<seq<byte>>, decode: Decoder): seq<Option<Event>>
  {
    if chunks == [] then []
    else AllEvents(chunks[..|chunks| - 1], decode) + ChunkEvents(chunks[|chunks| - 1], decode)
  }

  /** The exit test succeeds right after read `i`: it was non-empty and the
      counter then exceeds 1. */
  predicate QuitsAfter(chunks: seq<seq<byte>>, i: nat, decode: Decoder)
    requires i < |chunks|
  {
    |chunks[i]| > 0 && ShouldQuit(Counter(chunks[..i + 1], decode))
  }

  /** No exit test succeeded after any of the first `n` reads. */
  predicate NoQuitBefore(chunks: seq<seq<byte>>, n: nat, decode: Decoder)
  {
    forall i :: 0 <= i < n && i < |chunks| ==> !QuitsAfter(chunks, i, decode)
  }

  /** The outer `loop` of `main`, over a finite list of chunks (an empty chunk is a
      read that returned 0 bytes). It processes the chunks in order and stops right
      after the first one whose exit test succeeds. `q_key_count` is an `i32` in
      `main`; the counter stays at most 1 between reads and one read of at most
      `BUFFER_SIZE` bytes raises it by at most one per slice, so it never overflows. */
  method Run(chunks: seq<seq<byte>>, decode: Decoder)
    returns (consumed: nat, exited: bool, q: nat, out: seq<OutputLine>)
    requires forall i :: 0 <= i < |chunks| ==> |chunks[i]| <= BUFFER_SIZE
    ensures consumed <= |chunks|
    ensures exited <==> 0 < consumed && QuitsAfter(chunks, consumed - 1, decode)
    ensures NoQuitBefore(chunks, if exited then consumed - 1 else consumed, decode)
    ensures !exited ==> consumed == |chunks|
    ensures q == Counter(chunks[..consumed], decode)
    ensures out == Output(chunks[..consumed], decode)
    ensures !exited ==> q <= 1
    ensures q <= 1 + BUFFER_SIZE
  {
    consumed, exited, q, out := 0, false, 0, [];
    while consumed < |chunks|
      invariant consumed <= |chunks|
      invariant NoQuitBefore(chunks, consumed, decode)
      invariant q == Counter(chunks[..consumed], decode)
      invariant out == Output(chunks[..consumed], decode)
      invariant q <= 1
    {
      var n := consumed;
      var chunk := chunks[n];
      NextRead(chunks, n, decode);
      consumed := n + 1;
      if |chunk| > 0 {
        var sent, lines, q', quit := ProcessChunk(chunk, decode, q);
        QuitFoldBound(q, Decoded(sent, decode));
        assert ChunkEvents(chunk, decode) == Decoded(sent, decode);
        assert ChunkOutput(chunk, decode) == lines;
        q, out := q', out + lines;
        assert out == Output(chunks[..consumed], decode);
        assert quit <==> QuitsAfter(chunks, n, decode);
        if quit {
          exited := true;
          break;
        }
      } else {
        assert ChunkEvents(chunk, decode) == [] && ChunkOutput(chunk, decode) == [];
        assert out + [] == out;
        assert out == Output(chunks[..consumed], decode);
        assert !QuitsAfter(chunks, n, decode);
      }
      assert NoQuitBefore(chunks, consumed, decode);
    }
  }

  /** One more read: the counter runs over its events, the output gains its lines. */
  lemma NextRead(chunks: seq<seq<byte>>, n: nat, decode: Decoder)
    requires n < |chunks|
    ensures Counter(chunks[..n + 1], decode) == QuitFold(Counter(chunks[..n], decode), ChunkEvents(chunks[n], decode))
    ensures Output(chunks[..n + 1], decode) == Output(chunks[..n], decode) + ChunkOutput(chunks[n], decode)
  {
    assert chunks[..n + 1][..n] == chunks[..n];
  }

  /** Across reads the counter behaves as if all decoded events came in one run:
      it is the number of 'q' presses that end the press history. */
  lemma {:induction false} CounterAcrossReads(chunks: seq<seq<byte>>, decode: Decoder)
    ensures Counter(chunks, decode) == QuitFold(0, AllEvents(chunks, decode))
    ensures Counter(chunks, decode) == TrailingQuits(Presses(AllEvents(chunks, decode)))
    decreases |chunks|
  {
    if chunks != [] {
      var init := chunks[..|chunks| - 1];
      CounterAcrossReads(init, decode);
      QuitFoldAppend(0, AllEvents(init, decode), ChunkEvents(chunks[|chunks| - 1], decode));
    }
    CounterIsTrailingRun(0, AllEvents(chunks, decode));
  }

  /** The loop exits after a non-empty read exactly when the last two key presses
      decoded so far, over all chunks, were both 'q'. */
  lemma QuitsAfterIff(chunks: seq<seq<byte>>, i: nat, decode: Decoder)
    requires i < |chunks|
    ensures QuitsAfter(chunks, i, decode) <==>
      |chunks[i]| > 0 && TrailingQuits(Presses(AllEvents(chunks[..i + 1], decode))) >= 2
  {
    CounterAcrossReads(chunks[..i + 1], decode);
  }

  /** A read holding two escape sequences: only the first is printed and decoded;
      the second never reaches `write_sequence`. */
  lemma DroppedTailExample(decode: Decoder)
    ensures ChunkEvents([ESC, 0x61, ESC, 0x62], decode) == [Collapse(decode([ESC, 0x61]))]
    ensures ChunkOutput([ESC, 0x61, ESC, 0x62], decode) == WriteSequence([ESC, 0x61], decode).lines
    ensures ChunkOutput([ESC, 0x61, ESC, 0x62], decode)[0] == RenderedLine("0x1ba")
  {
    var chunk: seq<byte> := [ESC, 0x61, ESC, 0x62];
    var segs: seq<seq<byte>> := [[ESC, 0x61]];
    assert Sent(chunk) == segs by {
      CutExampleTwoSequences();
    }
    assert Transcript(segs, decode) == WriteSequence([ESC, 0x61], decode).lines by {
      assert segs[..0] == [];
    }
    assert Render([ESC, 0x61]) == "0x1ba" by {
      RenderExamples();
    }
  }
}
