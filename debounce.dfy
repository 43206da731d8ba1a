/**
 * The debounce filter of the button firmware: the `ButtonManager` enum and
 * its `is_pressed` step, as pure values and functions, with the properties of
 * whole sample sequences proved about them.
 */
module Debounce {

  /** Rust's `u8`: the counter carried by each variant. */
  newtype u8 = x: int | 0 <= x < 0x100

  /** Number of consecutive contrary samples that confirms a new level. */
  const Threshold: u8 := 30

  /**
   * The confirmed button level and the run length of samples that contradict it.
   * `UpState` is the released (pin high) level, `DownState` the pressed (pin low) one.
   */
  datatype ButtonManager = UpState(cnt: u8) | DownState(cnt: u8)

  /** The pin level a manager has confirmed: high in `UpState`, low in `DownState`. */
  function Level(m: ButtonManager): bool {
    m.UpState?
  }

  /** What holds between two calls: fewer contrary samples than the threshold. */
  predicate Inv(m: ButtonManager) {
    m.cnt < Threshold
  }

  /** `ButtonManager::new`: confirmed released, nothing counted. */
  function New(): (m: ButtonManager)
    ensures Inv(m) && Level(m) && m.cnt == 0
  {
    UpState(0)
  }

  /** The state after one `is_pressed` call, and what that call returns. */
  datatype StepResult = StepResult(next: ButtonManager, pressed: bool)

  /**
   * `is_pressed(value)`. First the sample is counted (reset on agreement,
   * `+= 1` otherwise), then a count that has reached the threshold flips the
   * variant; only the flip to `DownState` returns true.
   * The u8 increment must not overflow, whence the precondition.
   */
  function Step(m: ButtonManager, value: bool): (r: StepResult)
    requires m.cnt < 0xFF
    // a sample that agrees with the confirmed level clears the count
    ensures value == Level(m) ==> r == StepResult(m.(cnt := 0), false)
    // a contrary sample below the threshold is only counted
    ensures value != Level(m) && m.cnt + 1 < Threshold ==>
              r == StepResult(m.(cnt := m.cnt + 1), false)
    // a contrary sample that completes the run confirms the sampled level;
    // the call reports it exactly when that level is the pressed one
    ensures value != Level(m) && m.cnt + 1 >= Threshold ==>
              Level(r.next) == value && r.next.cnt == 0 && r.pressed == m.UpState?
    // only the release-to-press flip is ever reported
    ensures r.pressed ==> m.UpState? && !value && r.next == DownState(0)
    // whatever the state before, the next call's increment cannot overflow
    ensures Inv(r.next)
  {
    var counted := match m
      case UpState(cnt) => if value then UpState(0) else UpState(cnt + 1)
      case DownState(cnt) => if value then DownState(cnt + 1) else DownState(0);
    match counted
    case UpState(cnt) =>
      if cnt >= Threshold then StepResult(DownState(0), true) else StepResult(counted, false)
    case DownState(cnt) =>
      if cnt >= Threshold then StepResult(UpState(0), false) else StepResult(counted, false)
  }

  /** The step confirms the released level again (the event `is_pressed` does not report). */
  predicate Released(m: ButtonManager, value: bool)
    requires m.cnt < 0xFF
  {
    m.DownState? && Step(m, value).next.UpState?
  }

  /** The state after feeding the samples `s`, oldest first, to `is_pressed`. */
  function Run(m: ButtonManager, s: seq<bool>): (r: ButtonManager)
    requires Inv(m)
    ensures Inv(r)
    decreases |s|
  {
    if s == [] then m else Step(Run(m, s[..|s| - 1]), s[|s| - 1]).next
  }

  /** What each of the calls returns when the samples `s` are fed in order. */
  function Outputs(m: ButtonManager, s: seq<bool>): (r: seq<bool>)
    requires Inv(m)
    ensures |r| == |s|
    decreases |s|
  {
    if s == [] then []
    else
      var p := s[..|s| - 1];
      Outputs(m, p) + [Step(Run(m, p), s[|s| - 1]).pressed]
  }

  /** The t-th call sees the state left by the first t samples. */
  lemma {:induction false} OutputsAt(m: ButtonManager, s: seq<bool>, t: nat)
    requires Inv(m) && t < |s|
    ensures Outputs(m, s)[t] == Step(Run(m, s[..t]), s[t]).pressed
    decreases |s|
  {
    var p := s[..|s| - 1];
    if t < |p| {
      OutputsAt(m, p, t);
      assert p[..t] == s[..t];
    } else {
      assert p == s[..t];
    }
  }

  /** Number of `true` entries. */
  function Count(xs: seq<bool>): nat
    decreases |xs|
  {
    if xs == [] then 0 else Count(xs[..|xs| - 1]) + (if xs[|xs| - 1] then 1 else 0)
  }

  /** Number of presses reported while the samples `s` are fed in order. */
  function Presses(m: ButtonManager, s: seq<bool>): nat
    requires Inv(m)
  {
    Count(Outputs(m, s))
  }

  /** `n` copies of the level `v`. */
  function Repeat(v: bool, n: nat): (r: seq<bool>)
    ensures |r| == n && forall i :: 0 <= i < n ==> r[i] == v
    decreases n
  {
    if n == 0 then [] else Repeat(v, n - 1) + [v]
  }

  /** A run of `false` has no `true` entry to count. */
  lemma {:induction false} NoneCounted(n: nat)
    ensures Count(Repeat(false, n)) == 0
    decreases n
  {
    if n > 0 {
      NoneCounted(n - 1);
      assert Repeat(false, n)[..n - 1] == Repeat(false, n - 1);
    }
  }

  /** Feeding one more sample extends the run by one `is_pressed` step. */
  lemma {:induction false} RunSnoc(m: ButtonManager, s: seq<bool>, v: bool)
    requires Inv(m)
    ensures Run(m, s + [v]) == Step(Run(m, s), v).next
    ensures Outputs(m, s + [v]) == Outputs(m, s) + [Step(Run(m, s), v).pressed]
    ensures Presses(m, s + [v]) == Presses(m, s) + (if Step(Run(m, s), v).pressed then 1 else 0)
  {
    assert (s + [v])[..|s|] == s;
    var o := Outputs(m, s) + [Step(Run(m, s), v).pressed];
    assert o[..|o| - 1] == Outputs(m, s);
  }

  // ---------------------------------------------------------------------
  // The filter described by the sample history
  // ---------------------------------------------------------------------

  /** The last `n` samples of `h` are all `level`. */
  ghost predicate Trailing(h: seq<bool>, level: bool, n: nat) {
    n <= |h| && forall i :: |h| - n <= i < |h| ==> h[i] == level
  }

  /**
   * `m` is what the history `h` leaves: its count is the number of trailing
   * contrary samples, and the sample before them (if any) agreed with the
   * confirmed level.
   */
  ghost predicate Explains(m: ButtonManager, h: seq<bool>) {
    Inv(m)
    && Trailing(h, !Level(m), m.cnt as nat)
    && (|h| > m.cnt as nat ==> h[|h| - 1 - m.cnt as nat] == Level(m))
  }

  /**
   * One step keeps the history explanation, and it reports a press exactly
   * when the manager was released and the last 30 samples, this one
   * included, were all low (symmetrically for the release).
   */
  lemma {:induction false} StepExplained(m: ButtonManager, h: seq<bool>, v: bool)
    requires Explains(m, h)
    ensures Explains(Step(m, v).next, h + [v])
    ensures Step(m, v).pressed <==> m.UpState? && Trailing(h + [v], false, Threshold as nat)
    ensures Released(m, v) <==> m.DownState? && Trailing(h + [v], true, Threshold as nat)
  {
    var h' := h + [v];
    var k := m.cnt as nat;
    if v == Level(m) {
      // the count is cleared; the 30-run cannot end in an agreeing sample
      assert h'[|h'| - 1] == Level(m);
    } else if k + 1 < Threshold as nat {
      assert Trailing(h', !Level(m), k + 1);
      if |h'| >= Threshold as nat {
        // the sample before the contrary run agrees and lies inside the window
        assert h'[|h'| - 1 - (k + 1)] == Level(m);
      }
    } else {
      assert k + 1 == Threshold as nat;
      assert Trailing(h', !Level(m), k + 1);
      assert h'[|h'| - 1] == v;
    }
  }

  /** From a fresh manager, every history explains the state it leaves. */
  lemma {:induction false} RunExplained(s: seq<bool>)
    ensures Explains(Run(New(), s), s)
    decreases |s|
  {
    if s != [] {
      var p := s[..|s| - 1];
      RunExplained(p);
      StepExplained(Run(New(), p), p, s[|s| - 1]);
      assert p + [s[|s| - 1]] == s;
    }
  }

  /**
   * The t-th call returns true exactly when the manager was released and
   * samples t-29 .. t were all low.
   */
  lemma {:induction false} PressIffThirtyLows(s: seq<bool>, t: nat)
    requires t < |s|
    ensures Outputs(New(), s)[t] <==>
              Run(New(), s[..t]).UpState? && Trailing(s[..t + 1], false, Threshold as nat)
  {
    OutputsAt(New(), s, t);
    RunExplained(s[..t]);
    StepExplained(Run(New(), s[..t]), s[..t], s[t]);
    assert s[..t] + [s[t]] == s[..t + 1];
  }

  /**
   * The t-th call confirms the release exactly when the manager was pressed
   * and samples t-29 .. t were all high.
   */
  lemma {:induction false} ReleaseIffThirtyHighs(s: seq<bool>, t: nat)
    requires t < |s|
    ensures Released(Run(New(), s[..t]), s[t]) <==>
              Run(New(), s[..t]).DownState? && Trailing(s[..t + 1], true, Threshold as nat)
  {
    RunExplained(s[..t]);
    StepExplained(Run(New(), s[..t]), s[..t], s[t]);
    assert s[..t] + [s[t]] == s[..t + 1];
  }

  // ---------------------------------------------------------------------
  // The threshold boundary
  // ---------------------------------------------------------------------

  /** A run of `n` contrary samples that stays short of the threshold is only counted. */
  lemma {:induction false} ContraryRunCounts(m: ButtonManager, n: nat)
    requires m.cnt as nat + n < Threshold as nat
    ensures Run(m, Repeat(!Level(m), n)) == m.(cnt := (m.cnt as nat + n) as u8)
    ensures Outputs(m, Repeat(!Level(m), n)) == Repeat(false, n)
    decreases n
  {
    if n > 0 {
      var p := Repeat(!Level(m), n - 1);
      assert Repeat(!Level(m), n) == p + [!Level(m)];
      ContraryRunCounts(m, n - 1);
      RunSnoc(m, p, !Level(m));
      var before := m.(cnt := (m.cnt as nat + n - 1) as u8);
      assert Step(before, !Level(m)) == StepResult(m.(cnt := (m.cnt as nat + n) as u8), false);
    }
  }

  /** 29 low samples followed by a high one report nothing and end where they began. */
  lemma {:induction false} TwentyNineLowsThenHigh()
    ensures Run(New(), Repeat(false, 29) + [true]) == New()
    ensures Outputs(New(), Repeat(false, 29) + [true]) == Repeat(false, 30)
  {
    ContraryRunCounts(New(), 29);
    RunSnoc(New(), Repeat(false, 29), true);
  }

  /** 30 low samples report a press on the 30th call and on no other. */
  lemma {:induction false} ThirtyLows()
    ensures Run(New(), Repeat(false, 30)) == DownState(0)
    ensures Outputs(New(), Repeat(false, 30)) == Repeat(false, 29) + [true]
  {
    ContraryRunCounts(New(), 29);
    RunSnoc(New(), Repeat(false, 29), false);
  }

  /** 30 high samples release a pressed manager, and the release is not reported. */
  lemma {:induction false} ThirtyHighs()
    ensures Run(DownState(0), Repeat(true, 30)) == UpState(0)
    ensures Outputs(DownState(0), Repeat(true, 30)) == Repeat(false, 30)
  {
    ContraryRunCounts(DownState(0), 29);
    RunSnoc(DownState(0), Repeat(true, 29), true);
  }

  /** Holding the pin low once pressed never reports again. */
  lemma {:induction false} HoldLowAfterPress(n: nat)
    ensures Run(DownState(0), Repeat(false, n)) == DownState(0)
    ensures Outputs(DownState(0), Repeat(false, n)) == Repeat(false, n)
    decreases n
  {
    if n > 0 {
      HoldLowAfterPress(n - 1);
      RunSnoc(DownState(0), Repeat(false, n - 1), false);
    }
  }

  /** The 30 low samples count one press. */
  lemma {:induction false} ThirtyLowsOnePress()
    ensures Presses(New(), Repeat(false, Threshold as nat)) == 1
  {
    ThirtyLows();
    var o := Repeat(false, 29) + [true];
    assert o[..29] == Repeat(false, 29);
    NoneCounted(29);
  }

  /** The press pattern of a pin held low for `n` samples. */
  ghost predicate HeldLowPattern(n: nat)
    requires n >= Threshold as nat
  {
    Run(New(), Repeat(false, n)) == DownState(0)
    && Outputs(New(), Repeat(false, n)) == Repeat(false, 29) + [true] + Repeat(false, n - 30)
    && Presses(New(), Repeat(false, n)) == 1
  }

  /** The pattern after exactly 30 low samples. */
  lemma {:induction false} HeldLowBase()
    ensures HeldLowPattern(Threshold as nat)
  {
    ThirtyLows();
    ThirtyLowsOnePress();
    assert Repeat(false, 0) == [];
  }

  /** One more low sample after the press reports nothing and changes nothing. */
  lemma {:induction false} HeldLowStep(n: nat)
    requires n >= Threshold as nat && HeldLowPattern(n)
    ensures HeldLowPattern(n + 1)
  {
    var p := Repeat(false, n);
    assert Repeat(false, n + 1) == p + [false];
    RunSnoc(New(), p, false);
    assert Step(DownState(0), false) == StepResult(DownState(0), false);
    var press := Repeat(false, 29) + [true];
    var tail := Repeat(false, n - 30);
    assert Repeat(false, n + 1 - 30) == tail + [false];
    assert press + (tail + [false]) == (press + tail) + [false];
  }

  /** Every hold of at least 30 low samples has the press pattern. */
  lemma {:induction false} HeldLowHasPattern(n: nat)
    requires n >= Threshold as nat
    ensures HeldLowPattern(n)
    decreases n
  {
    if n == Threshold as nat {
      HeldLowBase();
    } else {
      HeldLowHasPattern(n - 1);
      HeldLowStep(n - 1);
    }
  }

  /**
   * Holding the pin low from a fresh manager reports exactly one press, on
   * the 30th call, however long the pin is held.
   */
  lemma {:induction false} HeldLow(n: nat)
    requires n >= Threshold as nat
    ensures Run(New(), Repeat(false, n)) == DownState(0)
    ensures Outputs(New(), Repeat(false, n)) == Repeat(false, 29) + [true] + Repeat(false, n - 30)
    ensures Presses(New(), Repeat(false, n)) == 1
  {
    HeldLowHasPattern(n);
  }
}
