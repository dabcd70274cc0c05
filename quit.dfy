/** The quit protocol: `q_key_count` counts consecutive presses of 'q'. Only
    decoded key events of kind Press touch it; the loop stops when it exceeds 1
    after a whole chunk has been processed. */
module Quit {
  import opened Events

  const QUIT_KEY: KeyCode := Char('q')

  /** The counter after one decoded event. */
  function QuitStep(q: nat, ev: Option<Event>): (r: nat)
    ensures !IsPress(ev) ==> r == q
    ensures IsPress(ev) && ev.value.key.code == QUIT_KEY ==> r == q + 1
    ensures IsPress(ev) && ev.value.key.code != QUIT_KEY ==> r == 0
  {
    match ev
    case Some(Key(k)) =>
      if k.kind == Press then (if k.code == QUIT_KEY then q + 1 else 0) else q
    case _ => q
  }

  /** The counter after a run of decoded events, in order, starting from `q`. */
  function QuitFold(q: nat, evs: seq<Option<Event>>): nat
  {
    if evs == [] then q else QuitStep(QuitFold(q, evs[..|evs| - 1]), evs[|evs| - 1])
  }

  /** The loop's exit test, run once per chunk. */
  predicate ShouldQuit(q: nat)
  {
    q > 1
  }

  /** The key codes of the press events, in order: what the counter listens to. */
  function Presses(evs: seq<Option<Event>>): seq<KeyCode>
  {
    if evs == [] then []
    else
      var last := evs[|evs| - 1];
      Presses(evs[..|evs| - 1]) + (if IsPress(last) then [last.value.key.code] else [])
  }

  /** Number of 'q' codes at the end of `codes`. */
  function TrailingQuits(codes: seq<KeyCode>): nat
  {
    if codes == [] || codes[|codes| - 1] != QUIT_KEY then 0
    else TrailingQuits(codes[..|codes| - 1]) + 1
  }

  /** The counter is the length of the run of 'q' presses that ends the history;
      the starting value survives only when every press was a 'q'. */
  lemma {:induction false} CounterIsTrailingRun(q: nat, evs: seq<Option<Event>>)
    ensures var p := Presses(evs);
      QuitFold(q, evs) == TrailingQuits(p) + (if TrailingQuits(p) == |p| then q else 0)
    decreases |evs|
  {
    if evs != [] {
      var init := evs[..|evs| - 1];
      var last := evs[|evs| - 1];
      CounterIsTrailingRun(q, init);
      var p0 := Presses(init);
      if IsPress(last) {
        var p := p0 + [last.value.key.code];
        assert Presses(evs) == p;
        assert p[..|p| - 1] == p0;
        if last.value.key.code == QUIT_KEY {
          assert TrailingQuits(p) == TrailingQuits(p0) + 1;
        } else {
          assert TrailingQuits(p) == 0;
        }
      } else {
        assert Presses(evs) == p0;
      }
    }
  }

  /** Appending events continues the count from where it stood. */
  lemma {:induction false} QuitFoldAppend(q: nat, a: seq<Option<Event>>, b: seq<Option<Event>>)
    ensures QuitFold(q, a + b) == QuitFold(QuitFold(q, a), b)
    decreases |b|
  {
    if b == [] {
      assert a + b == a;
    } else {
      assert (a + b)[..|a + b| - 1] == a + b[..|b| - 1];
      QuitFoldAppend(q, a, b[..|b| - 1]);
    }
  }

  /** Each event raises the counter by at most one. */
  lemma {:induction false} QuitFoldBound(q: nat, evs: seq<Option<Event>>)
    ensures QuitFold(q, evs) <= q + |evs|
    decreases |evs|
  {
    if evs != [] {
      QuitFoldBound(q, evs[..|evs| - 1]);
    }
  }

  /** Events that are not key presses leave the counter where it is. */
  lemma {:induction false} NonPressesIgnored(q: nat, evs: seq<Option<Event>>)
    requires forall i :: 0 <= i < |evs| ==> !IsPress(evs[i])
    ensures QuitFold(q, evs) == q
    decreases |evs|
  {
    if evs != [] {
      NonPressesIgnored(q, evs[..|evs| - 1]);
    }
  }

  function Pressed(code: KeyCode): Option<Event>
  {
    Some(Key(KeyEvent(code, Press)))
  }

  /** Two 'q' presses exit; an intervening key resets the count; the test is made
      only at the end of a chunk, so 'q', 'q', 'x' in one chunk does not exit;
      release and repeat events, other events and failed decodes change nothing. */
  lemma QuitExamples(q: nat)
    ensures QuitFold(0, [Pressed(QUIT_KEY), Pressed(QUIT_KEY)]) == 2
    ensures ShouldQuit(QuitFold(0, [Pressed(QUIT_KEY), Pressed(QUIT_KEY)]))
    ensures QuitFold(0, [Pressed(QUIT_KEY), Pressed(Char('x')), Pressed(QUIT_KEY)]) == 1
    ensures !ShouldQuit(QuitFold(0, [Pressed(QUIT_KEY), Pressed(Char('x')), Pressed(QUIT_KEY)]))
    ensures !ShouldQuit(QuitFold(0, [Pressed(QUIT_KEY), Pressed(QUIT_KEY), Pressed(Char('x'))]))
    ensures QuitStep(q, Some(Key(KeyEvent(QUIT_KEY, Release)))) == q
    ensures QuitStep(q, Some(Key(KeyEvent(QUIT_KEY, Repeat)))) == q
    ensures QuitStep(q, Some(Mouse)) == q
    ensures QuitStep(q, None) == q
  {
    var qq := [Pressed(QUIT_KEY), Pressed(QUIT_KEY)];
    assert QuitFold(0, qq[..1][..0]) == 0;
    assert QuitFold(0, qq[..1]) == 1;
    assert QuitFold(0, qq) == 2;
    var qxq := [Pressed(QUIT_KEY), Pressed(Char('x')), Pressed(QUIT_KEY)];
    assert qxq[..2] == [Pressed(QUIT_KEY), Pressed(Char('x'))];
    assert qxq[..2][..1] == [Pressed(QUIT_KEY)];
    assert qxq[..2][..1][..0] == [];
    assert QuitFold(0, qxq[..2][..1]) == 1;
    assert QuitFold(0, qxq[..2]) == 0;
    var qqx := [Pressed(QUIT_KEY), Pressed(QUIT_KEY), Pressed(Char('x'))];
    assert qqx[..2] == qq;
  }
}
