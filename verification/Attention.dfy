/** The attention bands of crates/apohara-attention/src/lib.rs, with instants in nanoseconds. */
module Attention {

  const SECOND: int := 1_000_000_000
  /** The longest duration the platform can express. */
  const FOREVER: int := 0x1_0000_0000_0000_0000 * SECOND - 1

  datatype Band = Hot | Warm | Cool | Idle
  datatype Stimulus = Direct | Ambient

  function Hold(band: Band): (hold: int)
    ensures hold > 0
  {
    match band
    case Hot => 60 * SECOND
    case Warm => 240 * SECOND
    case Cool => 720 * SECOND
    case Idle => FOREVER
  }

  function Cooler(band: Band): Band {
    match band
    case Hot => Warm
    case Warm => Cool
    case Cool => Idle
    case Idle => Idle
  }

  function Promote(band: Band): Band {
    match band
    case Hot => Hot
    case Warm | Cool | Idle => Warm
  }

  function Rank(band: Band): nat {
    match band
    case Hot => 3
    case Warm => 2
    case Cool => 1
    case Idle => 0
  }

  function Later(a: int, b: int): int {
    if a < b then b else a
  }

  /** An instant before `earlier` counts as no time passed. */
  function DurationSince(now: int, earlier: int): nat {
    if now < earlier then 0 else now - earlier
  }

  /** A band and when its hold began. */
  datatype Stage = Stage(band: Band, since: int)

  /** A stage cools once its hold has run out; the next hold begins where the last one ended. */
  ghost function Decay(s: Stage, now: int): Stage
    decreases Rank(s.band)
  {
    if s.band.Idle? || DurationSince(now, s.since) < Hold(s.band) then s
    else Decay(Stage(Cooler(s.band), s.since + Hold(s.band)), now)
  }

  ghost function Stimulate(s: Stage, stim: Stimulus, now: int): Stage {
    Stage(if stim.Direct? then Hot else Promote(s.band), Later(s.since, now))
  }

  class AttentionState {
    const target: string
    var band: Band
    var lastPromote: int

    ghost function Now(): Stage
      reads this
    {
      Stage(band, lastPromote)
    }

    constructor (target: string, now: int)
      ensures this.target == target && Now() == Stage(Idle, now)
    {
      this.target, band, lastPromote := target, Idle, now;
    }

    method Apply(stim: Stimulus, now: int)
      modifies this
      ensures Now() == Stimulate(old(Now()), stim, now)
    {
      match stim {
        case Direct => band := Hot;
        case Ambient => band := Promote(band);
      }
      lastPromote := Later(lastPromote, now);
    }

    method Tick(now: int)
      modifies this
      ensures Now() == Decay(old(Now()), now)
    {
      while true
        invariant Decay(Now(), now) == Decay(old(Now()), now)
        decreases Rank(band)
      {
        var hold := Hold(band);
        if DurationSince(now, lastPromote) < hold {
          return;
        }
        var cooler := Cooler(band);
        if cooler == band {
          return;
        }
        lastPromote := lastPromote + hold;
        band := cooler;
      }
    }
  }

  // ---- ticking ---------------------------------------------------------------------------------

  /** Where a hot stage stands after a given time, in one formula. */
  lemma DecayFromHot(since: int, now: int)
    ensures Decay(Stage(Hot, since), now)
         == if now < since + 60 * SECOND then Stage(Hot, since)
            else if now < since + 300 * SECOND then Stage(Warm, since + 60 * SECOND)
            else if now < since + 1020 * SECOND then Stage(Cool, since + 300 * SECOND)
            else Stage(Idle, since + 1020 * SECOND)
  {
    var warm := Stage(Warm, since + 60 * SECOND);
    var cool := Stage(Cool, since + 300 * SECOND);
    if now >= since + 60 * SECOND {
      assert Decay(Stage(Hot, since), now) == Decay(warm, now);
      if now >= since + 300 * SECOND {
        assert Decay(warm, now) == Decay(cool, now);
      }
    }
  }

  /** A warm stage goes on as a hot one does once it is warm, and a cool one once it is cool. */
  lemma DecayFromBelow(since: int, now: int)
    ensures now >= since ==> Decay(Stage(Warm, since), now) == Decay(Stage(Hot, since - 60 * SECOND), now)
    ensures now >= since ==> Decay(Stage(Cool, since), now) == Decay(Stage(Hot, since - 300 * SECOND), now)
    ensures now < since ==> forall band :: Decay(Stage(band, since), now) == Stage(band, since)
  {
    DecayFromHot(since - 60 * SECOND, now);
    DecayFromHot(since - 300 * SECOND, now);
  }

  /** The hold timer moves forward only, and never past the clock. */
  lemma {:induction false} DecayForward(s: Stage, now: int)
    ensures s.since <= Decay(s, now).since <= Later(s.since, now)
    ensures Rank(Decay(s, now).band) <= Rank(s.band)
    decreases Rank(s.band)
  {
    if s.band.Idle? || DurationSince(now, s.since) < Hold(s.band) {
    } else {
      DecayForward(Stage(Cooler(s.band), s.since + Hold(s.band)), now);
    }
  }

  /** A second tick makes up for whatever the first one did not yet see, and repeats nothing. */
  lemma {:induction false} TickTwice(s: Stage, t1: int, t2: int)
    ensures Decay(Decay(s, t1), t2) == Decay(s, Later(t1, t2))
    decreases Rank(s.band)
  {
    if s.band.Idle? {
    } else if DurationSince(t1, s.since) >= Hold(s.band) {
      TickTwice(Stage(Cooler(s.band), s.since + Hold(s.band)), t1, t2);
    } else if t2 < t1 {
    }
  }

  ghost function Ticks(s: Stage, times: seq<int>): Stage {
    if times == [] then s else Decay(Ticks(s, times[..|times| - 1]), times[|times| - 1])
  }

  ghost function Latest(times: seq<int>): int
    requires times != []
  {
    if |times| == 1 then times[0] else Later(Latest(times[..|times| - 1]), times[|times| - 1])
  }

  /** However often and in whatever order it ticks, only the latest tick counts. */
  lemma {:induction false} OnlyTheLatestTickCounts(s: Stage, times: seq<int>)
    requires times != []
    ensures Ticks(s, times) == Decay(s, Latest(times))
  {
    var before := times[..|times| - 1];
    if before == [] {
      assert Ticks(s, before) == s;
    } else {
      OnlyTheLatestTickCounts(s, before);
      TickTwice(s, Latest(before), times[|times| - 1]);
    }
  }

  /** A tick just before a stimulus changes nothing, except that it lets a hot stage cool off before an ambient one. */
  lemma TickBeforeStimulus(s: Stage, stim: Stimulus, now: int)
    ensures Stimulate(Decay(s, now), stim, now) == Stimulate(s, stim, now)
       <==> !(stim.Ambient? && s.band.Hot? && now >= s.since + 60 * SECOND)
  {
    DecayForward(s, now);
    if s.band.Hot? {
      DecayFromHot(s.since, now);
    }
  }

  /** A direct stimulus makes the stage hot; an ambient one makes it warm, unless it is hot and stays so. */
  lemma StimulusRaises(s: Stage, stim: Stimulus, now: int)
    ensures Stimulate(s, stim, now).band == if stim.Direct? || s.band.Hot? then Hot else Warm
    ensures Rank(Stimulate(s, stim, now).band) >= Rank(s.band)
  {
  }

  /** The bands from the warmest: each but the last cools to the next, and only the last does not rank above it. */
  lemma CoolingLowers(band: Band)
    ensures Rank(Cooler(band)) == if band.Idle? then Rank(band) else Rank(band) - 1
  {
  }

  /** An idle stage stays as it is. */
  lemma IdleStays(since: int, now: int)
    ensures Decay(Stage(Idle, since), now) == Stage(Idle, since)
  {
  }

  // ---- whole runs --------------------------------------------------------------------------------

  datatype Event = Stimulated(stim: Stimulus, at: int) | Ticked(at: int)

  ghost function After(s: Stage, e: Event): Stage {
    match e
    case Stimulated(stim, at) => Stimulate(s, stim, at)
    case Ticked(at) => Decay(s, at)
  }

  ghost function Run(s: Stage, events: seq<Event>): Stage {
    if events == [] then s else After(Run(s, events[..|events| - 1]), events[|events| - 1])
  }

  /** Over any run, with times in any order, the hold timer never goes back and never runs ahead of every clock seen. */
  lemma {:induction false} TimerNeverGoesBack(s: Stage, events: seq<Event>, k: nat, bound: int)
    requires k <= |events| && s.since <= bound
    requires forall i :: 0 <= i < |events| ==> events[i].at <= bound
    ensures Run(s, events[..k]).since <= Run(s, events).since <= bound
  {
    if k == |events| {
      assert events[..k] == events;
    }
    if events != [] {
      var before := events[..|events| - 1];
      var e := events[|events| - 1];
      if k < |events| {
        assert before[..k] == events[..k];
        TimerNeverGoesBack(s, before, k, bound);
      } else {
        TimerNeverGoesBack(s, before, 0, bound);
      }
      if e.Ticked? {
        DecayForward(Run(s, before), e.at);
      }
    }
  }

  /** Only a direct stimulus makes a stage hot: without one it stays out of the band for good. */
  lemma {:induction false} HotNeedsDirect(s: Stage, events: seq<Event>)
    requires !s.band.Hot?
    requires forall i :: 0 <= i < |events| ==> events[i].Stimulated? ==> events[i].stim.Ambient?
    ensures !Run(s, events).band.Hot?
  {
    if events != [] {
      HotNeedsDirect(s, events[..|events| - 1]);
      DecayForward(Run(s, events[..|events| - 1]), events[|events| - 1].at);
    }
  }
}
