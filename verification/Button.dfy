/** button_handler of the button component: a debounced state machine that is given one sample of the
    input level per tick.

    `Step` is one call and `Run` the calls for a sequence of samples, from the state in which a button
    is created.  The theorems say what the events of every run look like, and when they come. */
module Button {

  datatype Event = PressDown | PressUp | PressRepeat | SingleClick | DoubleClick | LongPressStart | LongPressHold

  /** The configuration.  The counter of the debouncing has three bits. */
  datatype Config = Config(debounce: nat, short: nat, long: nat, active: bool)

  predicate Usable(c: Config) {
    1 <= c.debounce <= 7
  }

  /** The fields of button_dev_t that change.  `ticks` has 16 bits and `repeat` eight. */
  datatype State = State(ticks: nat, repeat: nat, state: nat, debounceCnt: nat, level: bool)

  /** button_create_com */
  function Created(c: Config): State {
    State(0, 0, 0, 0, !c.active)
  }

  function Debounce(c: Config, st: State, sample: bool): State {
    if sample == st.level then st.(debounceCnt := 0)
    else
      var cnt := (st.debounceCnt + 1) % 8;
      if cnt >= c.debounce then st.(level := sample, debounceCnt := 0) else st.(debounceCnt := cnt)
  }

  /** The switch: the new state and the callbacks. */
  function Switch(c: Config, st: State): (State, seq<Event>) {
    var pressed := st.level == c.active;
    match st.state
    case 0 =>
      if pressed then (st.(ticks := 0, repeat := 1, state := 1), [PressDown]) else (st, [])
    case 1 =>
      if !pressed then (st.(ticks := 0, state := 2), [PressUp])
      else if st.ticks > c.long then (st.(state := 5), [LongPressStart])
      else (st, [])
    case 2 =>
      if pressed then (st.(repeat := (st.repeat + 1) % 256, ticks := 0, state := 3), [PressDown, PressRepeat])
      else if st.ticks > c.short then
        (st.(state := 0), if st.repeat == 1 then [SingleClick] else if st.repeat == 2 then [DoubleClick] else [])
      else (st, [])
    case 3 =>
      if pressed then (st, [])
      else if st.ticks < c.short then (st.(ticks := 0, state := 2), [PressUp])
      else (st.(state := 0), [PressUp])
    case 5 =>
      if pressed then (st, [LongPressHold]) else (st.(state := 0), [PressUp])
    case _ => (st, [])
  }

  function Step(c: Config, st: State, sample: bool): (State, seq<Event>) {
    var counted := if st.state > 0 then st.(ticks := (st.ticks + 1) % 0x1_0000) else st;
    Switch(c, Debounce(c, counted, sample))
  }

  /** The state and all events after the samples. */
  function Run(c: Config, samples: seq<bool>): (State, seq<Event>) {
    if samples == [] then (Created(c), [])
    else
      var (st, tr) := Run(c, samples[..|samples| - 1]);
      var (next, evs) := Step(c, st, samples[|samples| - 1]);
      (next, tr + evs)
  }

  // ----- the debounced level -----

  predicate Steady(s: seq<bool>, d: nat) {
    1 <= d <= |s| && forall k :: |s| - d <= k < |s| ==> s[k] == s[|s| - 1]
  }

  /** The value of the last `d` equal samples in a row; `init` if there never were as many. */
  function Debounced(s: seq<bool>, d: nat, init: bool): bool {
    if s == [] then init
    else if Steady(s, d) then s[|s| - 1]
    else Debounced(s[..|s| - 1], d, init)
  }

  /** How many of the last samples differ from `v`. */
  function Differing(s: seq<bool>, v: bool): (n: nat)
    ensures n <= |s|
  {
    if s == [] || s[|s| - 1] == v then 0 else 1 + Differing(s[..|s| - 1], v)
  }

  lemma {:induction false} DifferingIs(s: seq<bool>, v: bool, k: nat)
    requires k < |s|
    ensures |s| - Differing(s, v) <= k ==> s[k] != v
    ensures Differing(s, v) < |s| ==> s[|s| - 1 - Differing(s, v)] == v
    decreases |s|
  {
    if s[|s| - 1] != v && |s| > 1 {
      DifferingIs(s[..|s| - 1], v, if k < |s| - 1 then k else 0);
    }
  }

  /** As many as `d` differ if and only if the last `d` samples agree on the other value. */
  lemma SteadyIff(s: seq<bool>, v: bool, d: nat)
    requires s != [] && s[|s| - 1] != v && d >= 1
    ensures Steady(s, d) <==> Differing(s, v) >= d
  {
    var n := Differing(s, v);
    forall k | 0 <= k < |s| && |s| - n <= k
      ensures s[k] != v
    {
      DifferingIs(s, v, k);
    }
    if n < d <= |s| {
      DifferingIs(s, v, 0);
      assert s[|s| - 1 - n] != s[|s| - 1];
    }
  }

  /** The counter counts, and the level is the debounced one. */
  lemma {:induction false} LevelIsDebounced(c: Config, samples: seq<bool>)
    requires Usable(c)
    ensures var st := Run(c, samples).0;
      && st.level == Debounced(samples, c.debounce, !c.active)
      && st.debounceCnt == Differing(samples, st.level) < c.debounce
    decreases |samples|
  {
    if samples != [] {
      var most, x := samples[..|samples| - 1], samples[|samples| - 1];
      LevelIsDebounced(c, most);
      var st := Run(c, most).0;
      StepLevel(c, st, x);
      SteadyIff(samples, !x, c.debounce);
    }
  }

  /** The level and the counter are changed by the debouncing only. */
  lemma StepLevel(c: Config, st: State, x: bool)
    requires Usable(c) && st.debounceCnt < c.debounce
    ensures var r := Step(c, st, x).0;
      && r.level == (if st.level == x || st.debounceCnt + 1 >= c.debounce then x else st.level)
      && r.debounceCnt == (if st.level == x || st.debounceCnt + 1 >= c.debounce then 0 else st.debounceCnt + 1)
  {
  }

  /** Samples that disturb a settled level, or the released one at the start, do not change it if they
      are fewer than it takes. */
  lemma {:induction false} GlitchIsIgnored(c: Config, samples: seq<bool>, glitch: seq<bool>)
    requires Usable(c) && |glitch| < c.debounce
    requires samples == [] || samples[|samples| - 1] == Run(c, samples).0.level
    ensures Run(c, samples + glitch).0.level == Run(c, samples).0.level
    decreases |glitch|
  {
    if glitch == [] {
      assert samples + glitch == samples;
    } else {
      var most := glitch[..|glitch| - 1];
      GlitchIsIgnored(c, samples, most);
      var s := samples + glitch;
      assert s[..|s| - 1] == samples + most;
      LevelIsDebounced(c, samples + most);
      LevelIsDebounced(c, s);
      if Steady(s, c.debounce) && samples != [] {
        assert s[|samples| - 1] == s[|s| - 1];
      }
    }
  }

  // ----- what the events of a run look like -----

  function Most(tr: seq<Event>): seq<Event>
    requires tr != []
  {
    tr[..|tr| - 1]
  }

  function Last(tr: seq<Event>): Event
    requires tr != []
  {
    tr[|tr| - 1]
  }

  /** The last press has not been released. */
  predicate Pressed(tr: seq<Event>) {
    tr != [] && (Last(tr) == PressDown || (Last(tr) != PressUp && Pressed(Most(tr))))
  }

  /** A long press has been announced since the last press or release. */
  predicate Held(tr: seq<Event>) {
    tr != [] && (Last(tr) == LongPressStart || (Last(tr) != PressUp && Last(tr) != PressDown && Held(Most(tr))))
  }

  /** A long press has been announced since the last press, released by now or not. */
  predicate Long(tr: seq<Event>) {
    tr != [] && (Last(tr) == LongPressStart || (Last(tr) != PressDown && Long(Most(tr))))
  }

  /** While a button is pressed, the two are the same. */
  lemma {:induction false} HeldIsLong(tr: seq<Event>)
    requires Pressed(tr)
    ensures Held(tr) == Long(tr)
    decreases |tr|
  {
    if Last(tr) != PressDown && Last(tr) != LongPressStart {
      HeldIsLong(Most(tr));
    }
  }

  /** How many presses the last burst has: those marked as repeated, and the one before them. */
  function Presses(tr: seq<Event>): nat {
    if tr == [] then 0
    else if Last(tr) == PressDown then 1
    else if Last(tr) == PressRepeat && |tr| > 1 then 1 + Presses(Most(Most(tr)))
    else Presses(Most(tr))
  }

  /** What may come after the events `tr`. */
  predicate Allowed(tr: seq<Event>, e: Event) {
    match e
    case PressDown => !Pressed(tr)
    case PressUp => Pressed(tr)
    case PressRepeat => tr != [] && Last(tr) == PressDown
    case SingleClick => tr != [] && Last(tr) == PressUp && Presses(tr) % 256 == 1
    case DoubleClick => tr != [] && Last(tr) == PressUp && Presses(tr) % 256 == 2
    case LongPressStart => Pressed(tr) && !Held(tr) && Presses(tr) == 1
    case LongPressHold => Pressed(tr) && Held(tr)
  }

  ghost predicate Legal(tr: seq<Event>) {
    forall i :: 0 <= i < |tr| ==> Allowed(tr[..i], tr[i])
  }

  lemma LegalMore(tr: seq<Event>, e: Event)
    requires Legal(tr) && Allowed(tr, e)
    ensures Legal(tr + [e])
  {
    hide Allowed;
    forall i | 0 <= i < |tr| + 1
      ensures Allowed((tr + [e])[..i], (tr + [e])[i])
    {
      assert (tr + [e])[..i] == tr[..i];
    }
    assert tr[..|tr|] == tr;
  }

  /** What one more event does to what is known of the events. */
  lemma OneMore(tr: seq<Event>, e: Event)
    ensures Last(tr + [e]) == e && Most(tr + [e]) == tr
    ensures Pressed(tr + [e]) == (e == PressDown || (e != PressUp && Pressed(tr)))
    ensures Held(tr + [e]) == (e == LongPressStart || (e != PressUp && e != PressDown && Held(tr)))
    ensures Long(tr + [e]) == (e == LongPressStart || (e != PressDown && Long(tr)))
    ensures e != PressRepeat ==> Presses(tr + [e]) == if e == PressDown then 1 else Presses(tr)
  {
    assert (tr + [e])[..|tr|] == tr;
  }

  lemma RepeatCounts(tr: seq<Event>)
    ensures Presses(tr + [PressDown] + [PressRepeat]) == 1 + Presses(tr)
  {
    OneMore(tr, PressDown);
    OneMore(tr + [PressDown], PressRepeat);
  }

  /** The state knows what the events so far say. */
  ghost predicate Tracks(c: Config, st: State, tr: seq<Event>) {
    && st.state in {0, 1, 2, 3, 5}
    && (st.level == c.active <==> st.state in {1, 3, 5})
    && (Pressed(tr) <==> st.state in {1, 3, 5})
    && (Held(tr) <==> st.state == 5)
    && (st.state in {1, 2, 3} ==> Presses(tr) > 0 && st.repeat == Presses(tr) % 256)
    && (st.state == 1 <==> Pressed(tr) && !Held(tr) && Presses(tr) == 1)
    && (st.state == 2 ==> tr != [] && Last(tr) == PressUp)
  }

  /** The switch, when the level is new or not, keeps step with the events, and these are allowed. */
  lemma SwitchTracks(c: Config, was: State, st: State, tr: seq<Event>)
    requires Tracks(c, was, tr) && Legal(tr) && st.state == was.state && st.repeat == was.repeat
    ensures var (r, evs) := Switch(c, st);
      Tracks(c, r, tr + evs) && Legal(tr + evs)
  {
    hide Legal, Pressed, Held, Presses;
    var (r, evs) := Switch(c, st);
    if evs == [] {
      assert tr + evs == tr;
    } else {
      var e := evs[0];
      OneMore(tr, e);
      LegalMore(tr, e);
      if |evs| == 1 {
        assert evs == [e];
      } else {
        assert tr + evs == tr + [PressDown] + [PressRepeat];
        OneMore(tr + [PressDown], PressRepeat);
        LegalMore(tr + [PressDown], PressRepeat);
        RepeatCounts(tr);
      }
    }
  }

  lemma {:induction false} RunTracks(c: Config, samples: seq<bool>)
    ensures var (st, tr) := Run(c, samples);
      Tracks(c, st, tr) && Legal(tr)
    decreases |samples|
  {
    hide Tracks, Legal, Switch;
    if samples == [] {
      CreatedTracks(c);
    } else {
      var most, x := samples[..|samples| - 1], samples[|samples| - 1];
      RunTracks(c, most);
      var (st, tr) := Run(c, most);
      var counted := if st.state > 0 then st.(ticks := (st.ticks + 1) % 0x1_0000) else st;
      SwitchTracks(c, st, Debounce(c, counted, x), tr);
    }
  }

  lemma CreatedTracks(c: Config)
    ensures Tracks(c, Created(c), []) && Legal([])
  {
  }

  /** On every run, presses and releases alternate; a long press is announced at most once for a
      press, and only for the first of a burst; it is held on only after that and before the release;
      and a click comes after a release that ends a burst of one or two presses, modulo 256. */
  lemma EveryRunIsLegal(c: Config, samples: seq<bool>, i: nat)
    requires i < |Run(c, samples).1|
    ensures var tr := Run(c, samples).1;
      Allowed(tr[..i], tr[i])
  {
    RunTracks(c, samples);
  }

  function Count(tr: seq<Event>, e: Event): nat {
    if tr == [] then 0 else Count(Most(tr), e) + if Last(tr) == e then 1 else 0
  }

  /** Presses and releases alternate, beginning with a press: up to any event there are as many, or
      one more press. */
  lemma {:induction false} PressesAlternate(tr: seq<Event>)
    requires Legal(tr)
    ensures Count(tr, PressDown) == Count(tr, PressUp) + if Pressed(tr) then 1 else 0
    decreases |tr|
  {
    if tr != [] {
      var n := |tr| - 1;
      assert Allowed(tr[..n], tr[n]);
      forall i | 0 <= i < n
        ensures Allowed(Most(tr)[..i], Most(tr)[i])
      {
        assert Most(tr)[..i] == tr[..i];
        assert Allowed(tr[..i], tr[i]);
      }
      PressesAlternate(Most(tr));
    }
  }

  lemma EveryRunAlternates(c: Config, samples: seq<bool>, n: nat)
    requires n <= |Run(c, samples).1|
    ensures var tr := Run(c, samples).1[..n];
      Count(tr, PressDown) == Count(tr, PressUp) + if Pressed(tr) then 1 else 0
  {
    RunTracks(c, samples);
    var tr := Run(c, samples).1;
    forall i | 0 <= i < n
      ensures Allowed(tr[..n][..i], tr[..n][i])
    {
      assert tr[..n][..i] == tr[..i];
      assert Allowed(tr[..i], tr[i]);
    }
    PressesAlternate(tr[..n]);
  }

  /** With eight or more ticks to debounce, the three-bit counter wraps before it gets there. */
  lemma {:induction false} EightIsDeaf(c: Config, samples: seq<bool>)
    requires c.debounce >= 8
    ensures var (st, tr) := Run(c, samples);
      st.level == !c.active && st.state == 0 && st.debounceCnt < 8 && tr == []
    decreases |samples|
  {
    if samples != [] {
      EightIsDeaf(c, samples[..|samples| - 1]);
    }
  }

  /** The configuration allows 8, but a button reports anything if and only if it is at most 7. */
  lemma ReportsIff(c: Config)
    requires c.debounce >= 1
    ensures (exists samples :: Run(c, samples).1 != []) <==> c.debounce <= 7
  {
    if c.debounce <= 7 {
      var samples := seq(c.debounce, _ => c.active);
      LevelIsDebounced(c, samples);
      RunTracks(c, samples);
      assert Steady(samples, c.debounce);
      assert Run(c, samples).1 != [];
    } else {
      forall samples
        ensures Run(c, samples).1 == []
      {
        EightIsDeaf(c, samples);
      }
    }
  }

  // ----- when they come -----

  /** How many samples ago the debounced level changed, or the start. */
  function Age(c: Config, samples: seq<bool>): nat
    decreases |samples|
  {
    if samples == [] then 0
    else
      var most := samples[..|samples| - 1];
      if Debounced(samples, c.debounce, !c.active) != Debounced(most, c.debounce, !c.active) then 0
      else Age(c, most) + 1
  }

  /** Outside of state 0, `ticks` is that time, in 16 bits; a first press or the pause after a release
      is left once the time is up. */
  ghost predicate Times(c: Config, st: State, age: nat) {
    && (st.state > 0 ==> st.ticks == age % 0x1_0000)
    && (st.state == 1 ==> st.ticks <= c.long)
    && (st.state == 1 && c.long < 0xFFFF ==> age <= c.long)
    && (st.state == 2 ==> st.ticks <= c.short)
    && (st.state == 2 && c.short < 0xFFFF ==> age <= c.short)
  }

  lemma StepTimes(c: Config, st: State, x: bool, age: nat)
    requires st.state in {0, 1, 2, 3, 5} && (st.level == c.active <==> st.state in {1, 3, 5})
    requires Times(c, st, age)
    ensures var r := Step(c, st, x).0;
      Times(c, r, if r.level == st.level then age + 1 else 0)
  {
    NextTick(age);
    hide Debounce;
    var counted := if st.state > 0 then st.(ticks := (st.ticks + 1) % 0x1_0000) else st;
    DebounceKeeps(c, counted, x);
  }

  lemma NextTick(age: nat)
    ensures (age % 0x1_0000 + 1) % 0x1_0000 == (age + 1) % 0x1_0000
  {
  }

  lemma DebounceKeeps(c: Config, st: State, x: bool)
    ensures var r := Debounce(c, st, x);
      r.state == st.state && r.ticks == st.ticks && r.repeat == st.repeat
  {
  }

  lemma {:induction false} RunTimes(c: Config, samples: seq<bool>)
    requires Usable(c)
    ensures Times(c, Run(c, samples).0, Age(c, samples))
    decreases |samples|
  {
    if samples != [] {
      var most, x := samples[..|samples| - 1], samples[|samples| - 1];
      RunTimes(c, most);
      RunTracks(c, most);
      LevelIsDebounced(c, most);
      LevelIsDebounced(c, samples);
      StepTimes(c, Run(c, most).0, x, Age(c, most));
    }
  }

  // ----- the pause after a release -----

  /** For how many samples the last press that was released had lasted. */
  function LastHold(c: Config, samples: seq<bool>): nat {
    if samples == [] then 0
    else
      var most := samples[..|samples| - 1];
      if Debounced(most, c.debounce, !c.active) == c.active && Debounced(samples, c.debounce, !c.active) != c.active
      then Age(c, most) + 1
      else LastHold(c, most)
  }

  /** A burst is waiting for another press: it was last released, that press was not a long one, the
      pause has not lasted longer than SHORT_TICKS, and a repeated press was itself shorter than that,
      as far as 16 bits can tell. */
  predicate Pausing(c: Config, tr: seq<Event>, age: nat, hold: nat) {
    && tr != [] && Last(tr) == PressUp && !Long(tr)
    && (c.short < 0xFFFF ==> age <= c.short)
    && (Presses(tr) == 1 || hold % 0x1_0000 < c.short)
  }

  /** One step keeps state 2 and the pause together. */
  lemma StepPauses(c: Config, st: State, x: bool, tr: seq<Event>, age: nat, hold: nat)
    requires Tracks(c, st, tr) && Times(c, st, age) && (st.state == 2 <==> Pausing(c, tr, age, hold))
    ensures var (r, evs) := Step(c, st, x);
      r.state == 2 <==>
        Pausing(c, tr + evs, if r.level == st.level then age + 1 else 0,
                if st.level == c.active && r.level != c.active then age + 1 else hold)
  {
    NextTick(age);
    var counted := if st.state > 0 then st.(ticks := (st.ticks + 1) % 0x1_0000) else st;
    DebounceKeeps(c, counted, x);
    if Pressed(tr) {
      HeldIsLong(tr);
    }
    hide Debounce, Pressed, Held, Long, Presses;
    var (r, evs) := Step(c, st, x);
    if evs == [] {
      assert tr + evs == tr;
    } else {
      OneMore(tr, evs[0]);
      if |evs| == 1 {
        assert evs == [evs[0]];
      } else {
        assert tr + evs == tr + [PressDown] + [PressRepeat];
        OneMore(tr + [PressDown], PressRepeat);
      }
    }
  }

  /** On every run the driver is in state 2 exactly while a burst is waiting for another press. */
  lemma {:induction false} RunPauses(c: Config, samples: seq<bool>)
    requires Usable(c)
    ensures var (st, tr) := Run(c, samples);
      st.state == 2 <==> Pausing(c, tr, Age(c, samples), LastHold(c, samples))
    decreases |samples|
  {
    if samples != [] {
      var most, x := samples[..|samples| - 1], samples[|samples| - 1];
      RunPauses(c, most);
      RunTimes(c, most);
      RunTracks(c, most);
      LevelIsDebounced(c, most);
      LevelIsDebounced(c, samples);
      hide Tracks, Times, Pausing, Step, Debounced;
      StepPauses(c, Run(c, most).0, x, Run(c, most).1, Age(c, most), LastHold(c, most));
    }
  }

  lemma LongPressAt(c: Config, st: State, x: bool, age: nat)
    requires (st.level == c.active <==> st.state in {1, 3, 5}) && Times(c, st, age)
    ensures var (r, evs) := Step(c, st, x);
      LongPressStart in evs <==> st.state == 1 && r.level == c.active && c.long < 0xFFFF && age == c.long
  {
    NextTick(age);
    hide Debounce;
    var counted := if st.state > 0 then st.(ticks := (st.ticks + 1) % 0x1_0000) else st;
    DebounceKeeps(c, counted, x);
  }

  lemma ClickAt(c: Config, st: State, x: bool, age: nat)
    requires (st.level == c.active <==> st.state in {1, 3, 5}) && Times(c, st, age)
    ensures var (r, evs) := Step(c, st, x);
      && (SingleClick in evs <==>
            st.state == 2 && st.repeat == 1 && r.level != c.active && c.short < 0xFFFF && age == c.short)
      && (DoubleClick in evs <==>
            st.state == 2 && st.repeat == 2 && r.level != c.active && c.short < 0xFFFF && age == c.short)
  {
    NextTick(age);
    hide Debounce;
    var counted := if st.state > 0 then st.(ticks := (st.ticks + 1) % 0x1_0000) else st;
    DebounceKeeps(c, counted, x);
  }

  /** A long press is announced exactly when the first press of a burst has lasted LONG_TICKS + 1
      samples, provided the counter gets that far. */
  lemma LongPressComesOnTime(c: Config, samples: seq<bool>, x: bool)
    requires Usable(c)
    ensures var (st, tr) := Run(c, samples);
      LongPressStart in Step(c, st, x).1 <==>
        && Pressed(tr) && !Held(tr) && Presses(tr) == 1
        && Debounced(samples + [x], c.debounce, !c.active) == c.active
        && c.long < 0xFFFF && Age(c, samples + [x]) == c.long + 1
  {
    NextSample(c, samples, x);
    RunTimes(c, samples);
    RunTracks(c, samples);
    LongPressAt(c, Run(c, samples).0, x, Age(c, samples));
    hide Step, Times, Run;
  }

  /** A click comes exactly at the sample with which the pause has lasted longer than SHORT_TICKS, if
      the burst that waits has one press or two, modulo 256, and the counter gets that far.  After a
      long press, or after a repeated press that was not short, there is none. */
  lemma ClickComesOnTime(c: Config, samples: seq<bool>, x: bool)
    requires Usable(c)
    ensures var (st, tr) := Run(c, samples);
      var over := Pausing(c, tr, Age(c, samples), LastHold(c, samples))
                  && Debounced(samples + [x], c.debounce, !c.active) != c.active
                  && c.short < 0xFFFF && Age(c, samples + [x]) == c.short + 1;
      && (SingleClick in Step(c, st, x).1 <==> over && Presses(tr) % 256 == 1)
      && (DoubleClick in Step(c, st, x).1 <==> over && Presses(tr) % 256 == 2)
  {
    NextSample(c, samples, x);
    RunPauses(c, samples);
    RunTimes(c, samples);
    RunTracks(c, samples);
    ClickAt(c, Run(c, samples).0, x, Age(c, samples));
    hide Step, Times, Run, Pausing;
  }

  lemma EdgesAt(c: Config, st: State, x: bool)
    requires st.state in {0, 1, 2, 3, 5} && (st.level == c.active <==> st.state in {1, 3, 5})
    ensures var (r, evs) := Step(c, st, x);
      && (PressDown in evs <==> st.level != c.active && r.level == c.active)
      && (PressUp in evs <==> st.level == c.active && r.level != c.active)
      && (PressRepeat in evs <==> st.state == 2 && r.level == c.active)
      && (LongPressHold in evs <==> st.state == 5 && r.level == c.active)
  {
    hide Debounce;
    var counted := if st.state > 0 then st.(ticks := (st.ticks + 1) % 0x1_0000) else st;
    DebounceKeeps(c, counted, x);
  }

  /** Presses and releases come exactly with the edges of the debounced level; a press is a repeated
      one exactly if a burst was waiting for it; and a long press is held at every sample until the
      release. */
  lemma EdgesAreReported(c: Config, samples: seq<bool>, x: bool)
    requires Usable(c)
    ensures var (st, tr) := Run(c, samples);
      var evs, before := Step(c, st, x).1, Debounced(samples, c.debounce, !c.active) == c.active;
      var after := Debounced(samples + [x], c.debounce, !c.active) == c.active;
      && (PressDown in evs <==> !before && after)
      && (PressUp in evs <==> before && !after)
      && (PressRepeat in evs <==> Pausing(c, tr, Age(c, samples), LastHold(c, samples)) && after)
      && (LongPressHold in evs <==> Held(tr) && after)
  {
    NextSample(c, samples, x);
    LevelIsDebounced(c, samples);
    RunTracks(c, samples);
    RunPauses(c, samples);
    EdgesAt(c, Run(c, samples).0, x);
    hide Step, Run, Pausing;
  }

  lemma NextSample(c: Config, samples: seq<bool>, x: bool)
    requires Usable(c)
    ensures var st, r := Run(c, samples).0, Run(c, samples + [x]).0;
      && r == Step(c, st, x).0
      && r.level == Debounced(samples + [x], c.debounce, !c.active)
      && Age(c, samples + [x]) == if r.level == st.level then Age(c, samples) + 1 else 0
  {
    assert (samples + [x])[..|samples|] == samples;
    LevelIsDebounced(c, samples);
    LevelIsDebounced(c, samples + [x]);
  }

  // ----- the code -----

  /** button_dev_t */
  class Button {
    var ticks: nat
    var repeat: nat
    var state: nat
    var debounceCnt: nat
    var level: bool
    const c: Config

    function Abs(): State
      reads this
    {
      State(ticks, repeat, state, debounceCnt, level)
    }

    constructor (c: Config)
      ensures this.c == c && Abs() == Created(c)
    {
      this.c := c;
      ticks, repeat, state, debounceCnt, level := 0, 0, 0, 0, !c.active;
    }

    /** button_handler; `events` are the callbacks it makes. */
    method Handler(sample: bool) returns (events: seq<Event>)
      modifies this
      ensures (Abs(), events) == Step(c, old(Abs()), sample)
    {
      events := [];
      if state > 0 {
        ticks := (ticks + 1) % 0x1_0000;
      }
      if sample != level {
        debounceCnt := (debounceCnt + 1) % 8;
        if debounceCnt >= c.debounce {
          level := sample;
          debounceCnt := 0;
        }
      } else {
        debounceCnt := 0;
      }
      match state {
        case 0 =>
          if level == c.active {
            events := [PressDown];
            ticks, repeat, state := 0, 1, 1;
          }
        case 1 =>
          if level != c.active {
            events := [PressUp];
            ticks, state := 0, 2;
          } else if ticks > c.long {
            events := [LongPressStart];
            state := 5;
          }
        case 2 =>
          if level == c.active {
            events := [PressDown];
            repeat := (repeat + 1) % 256;
            events := events + [PressRepeat];
            assert events == [PressDown, PressRepeat];
            ticks, state := 0, 3;
          } else if ticks > c.short {
            if repeat == 1 {
              events := [SingleClick];
            } else if repeat == 2 {
              events := [DoubleClick];
            }
            state := 0;
          }
        case 3 =>
          if level != c.active {
            events := [PressUp];
            if ticks < c.short {
              ticks, state := 0, 2;
            } else {
              state := 0;
            }
          }
        case 5 =>
          if level == c.active {
            events := [LongPressHold];
          } else {
            events := [PressUp];
            state := 0;
          }
        case _ =>
      }
    }
  }
}
