/** The driver registry (`Drivers`): an ordered list of drivers, each offering
    some of four capabilities — being polled, reporting buttons, reporting a
    lever position, and accepting the legacy LED mask. Every query and command
    goes to the drivers with the matching capability, in list order. */
module Drivers {
  import opened Types
  import opened Enums
  import opened Config
  import Keyboard
  import Mouse
  import LedBits
  import LedDebug
  import Hid

  /** What a driver can be asked to do. */
  datatype Caps = Caps(poll: bool, buttons: bool, lever: bool, led: bool)

  datatype Driver =
    | KeyboardDriver(keyboard: Keyboard.KeyBoard)
    | MouseDriver(mouse: Mouse.Mouse)
    | LedDebugDriver
    | HidDriver(hid: Hid.HidIO)
  {
    /** The capabilities each driver declares: the keyboard polls and reports
        buttons, the mouse polls and reports a lever, the debug sink takes LED
        masks, and the HID board does all four. */
    function Capabilities(): (c: Caps)
      ensures c.poll <==> !this.LedDebugDriver?
      ensures c.buttons <==> this.KeyboardDriver? || this.HidDriver?
      ensures c.lever <==> this.MouseDriver? || this.HidDriver?
      ensures c.led <==> this.LedDebugDriver? || this.HidDriver?
      ensures c.buttons || c.lever ==> c.poll
    {
      match this
      case KeyboardDriver(_) => Caps(true, true, false, false)
      case MouseDriver(_) => Caps(true, false, true, false)
      case LedDebugDriver => Caps(false, false, false, true)
      case HidDriver(_) => Caps(true, true, true, true)
    }

    predicate Pollable() { Capabilities().poll }
    predicate ButtonSource() { Capabilities().buttons }
    predicate LeverSource() { Capabilities().lever }
    predicate LightSink() { Capabilities().led }

    /** The position of the driver's kind in the order `init` adds them. */
    function Rank(): nat
    {
      match this
      case KeyboardDriver(_) => 0
      case MouseDriver(_) => 1
      case LedDebugDriver => 2
      case HidDriver(_) => 3
    }

    predicate SameKind(other: Driver)
    {
      Rank() == other.Rank()
    }
  }

  // ---------------------------------------------------------------- buttons

  /** The three button queries. */
  datatype Cluster = Op | Left | Right

  /** One driver's mask for a cluster (its `ButtonDriver` answer): the
      keyboard reports what its last poll stored, and so does the HID board,
      except that it has no operator buttons and always answers 0 for them. */
  function MaskOf(d: Driver, c: Cluster): (m: bv8)
    requires d.ButtonSource()
    ensures d.HidDriver? && c == Op ==> m == 0
    ensures d.HidDriver? && c == Left ==> m == d.hid.leftBtns
    ensures d.HidDriver? && c == Right ==> m == d.hid.rightBtns
    ensures d.KeyboardDriver? && c == Op ==> m == d.keyboard.opBtns
    ensures d.KeyboardDriver? && c == Left ==> m == d.keyboard.leftBtns
    ensures d.KeyboardDriver? && c == Right ==> m == d.keyboard.rightBtns
  {
    match d
    case KeyboardDriver(k) =>
      (match c
       case Op => Keyboard.OpBtns(k)
       case Left => Keyboard.LeftBtns(k)
       case Right => Keyboard.RightBtns(k))
    case HidDriver(h) =>
      (match c
       case Op => 0
       case Left => h.leftBtns
       case Right => h.rightBtns)
  }

  predicate BitOf(m: bv8, b: nat)
    requires b < 8
  {
    m & (1 << b) != 0
  }

  /** Driver `d` reports bit `b` of cluster `c`. */
  predicate Contributes(d: Driver, c: Cluster, b: nat)
    requires b < 8
  {
    d.ButtonSource() && BitOf(MaskOf(d, c), b)
  }

  /** `op_btns`, `left_btns`, `right_btns` (mod.rs:86-108): the masks of the
      button drivers folded with `|` from 0, front to back. A bit is set
      exactly when some button driver reports it. */
  function OrMasks(ds: seq<Driver>, c: Cluster): (m: bv8)
    ensures forall b: nat :: b < 8 ==>
      (BitOf(m, b) <==> exists i :: 0 <= i < |ds| && Contributes(ds[i], c, b))
    decreases |ds|
  {
    if |ds| == 0 then 0
    else
      var init := ds[..|ds| - 1];
      var last := ds[|ds| - 1];
      var m := OrMasks(init, c) | (if last.ButtonSource() then MaskOf(last, c) else 0);
      forall b: nat | b < 8
        ensures BitOf(m, b) <==> exists i :: 0 <= i < |ds| && Contributes(ds[i], c, b)
      {
        BitOfOr(OrMasks(init, c), if last.ButtonSource() then MaskOf(last, c) else 0, b);
        if exists i :: 0 <= i < |ds| && Contributes(ds[i], c, b) {
          var i :| 0 <= i < |ds| && Contributes(ds[i], c, b);
          if i < |ds| - 1 {
            assert ds[i] == init[i];
          }
        }
        if exists i :: 0 <= i < |init| && Contributes(init[i], c, b) {
          var i :| 0 <= i < |init| && Contributes(init[i], c, b);
          assert ds[i] == init[i];
        }
      }
      m
  }

  lemma BitOfOr(x: bv8, y: bv8, b: nat)
    requires b < 8
    ensures BitOf(x | y, b) <==> BitOf(x, b) || BitOf(y, b)
  {
  }

  /** Masks agreeing on all eight bits are equal. The asserts only
      instantiate the hypothesis at the eight constant positions. */
  lemma SameBits(x: bv8, y: bv8)
    requires forall b: nat :: b < 8 ==> BitOf(x, b) == BitOf(y, b)
    ensures x == y
  {
    assert BitOf(x, 0) == BitOf(y, 0);
    assert BitOf(x, 1) == BitOf(y, 1);
    assert BitOf(x, 2) == BitOf(y, 2);
    assert BitOf(x, 3) == BitOf(y, 3);
    assert BitOf(x, 4) == BitOf(y, 4);
    assert BitOf(x, 5) == BitOf(y, 5);
    assert BitOf(x, 6) == BitOf(y, 6);
    assert BitOf(x, 7) == BitOf(y, 7);
    SameBitsConcrete(x, y);
  }

  lemma SameBitsConcrete(x: bv8, y: bv8)
    requires (x >> 0) & 1 == (y >> 0) & 1
    requires (x >> 1) & 1 == (y >> 1) & 1
    requires (x >> 2) & 1 == (y >> 2) & 1
    requires (x >> 3) & 1 == (y >> 3) & 1
    requires (x >> 4) & 1 == (y >> 4) & 1
    requires (x >> 5) & 1 == (y >> 5) & 1
    requires (x >> 6) & 1 == (y >> 6) & 1
    requires (x >> 7) & 1 == (y >> 7) & 1
    ensures x == y
  {
  }

  /** With no button driver every button query answers 0. */
  lemma NoButtonSourceNoButtons(ds: seq<Driver>, c: Cluster)
    requires forall i :: 0 <= i < |ds| ==> !ds[i].ButtonSource()
    ensures OrMasks(ds, c) == 0
  {
    forall b: nat | b < 8
      ensures BitOf(OrMasks(ds, c), b) == BitOf(0, b)
    {
    }
    SameBits(OrMasks(ds, c), 0);
  }

  /** The button queries do not depend on the order of the drivers: any
      rearrangement of the same drivers answers the same. */
  lemma OrMasksOrderFree(ds1: seq<Driver>, ds2: seq<Driver>, c: Cluster)
    requires multiset(ds1) == multiset(ds2)
    ensures OrMasks(ds1, c) == OrMasks(ds2, c)
  {
    forall b: nat | b < 8
      ensures BitOf(OrMasks(ds1, c), b) == BitOf(OrMasks(ds2, c), b)
    {
      if exists i :: 0 <= i < |ds1| && Contributes(ds1[i], c, b) {
        var i :| 0 <= i < |ds1| && Contributes(ds1[i], c, b);
        assert ds1[i] in multiset(ds2);
        var j :| 0 <= j < |ds2| && ds2[j] == ds1[i];
      }
      if exists j :: 0 <= j < |ds2| && Contributes(ds2[j], c, b) {
        var j :| 0 <= j < |ds2| && Contributes(ds2[j], c, b);
        assert ds2[j] in multiset(ds1);
        var i :| 0 <= i < |ds1| && ds1[i] == ds2[j];
      }
    }
    SameBits(OrMasks(ds1, c), OrMasks(ds2, c));
  }

  // ------------------------------------------------------------------ lever

  /** `lever` (mod.rs:110-116): the reading of the first lever driver in list
      order, if there is one. */
  function Lever(ds: seq<Driver>): (r: Option<i16>)
    ensures r.None? <==> forall i :: 0 <= i < |ds| ==> !ds[i].LeverSource()
    ensures r.Some? ==>
      (exists i :: 0 <= i < |ds| && ds[i].LeverSource()
        && (forall j :: 0 <= j < i ==> !ds[j].LeverSource())
        && r.value == LeverOf(ds[i]))
    decreases |ds|
  {
    if |ds| == 0 then None
    else if ds[0].LeverSource() then Some(LeverOf(ds[0]))
    else
      var r := Lever(ds[1..]);
      assert forall i :: 1 <= i < |ds| ==> ds[i] == ds[1..][i - 1];
      if r.Some? then
        var i :| 0 <= i < |ds[1..]| && ds[1..][i].LeverSource()
          && (forall j :: 0 <= j < i ==> !ds[1..][j].LeverSource())
          && r.value == LeverOf(ds[1..][i]);
        assert ds[i + 1] == ds[1..][i];
        r
      else r
  }

  /** One driver's `LeverDriver` answer: the lever position its last poll
      stored, for the mouse and the HID board alike. */
  function LeverOf(d: Driver): (pos: i16)
    requires d.LeverSource()
    ensures d.MouseDriver? ==> pos == d.mouse.lever
    ensures d.HidDriver? ==> pos == d.hid.lever
  {
    match d
    case MouseDriver(m) => m.lever
    case HidDriver(h) => h.lever
  }

  /** First wins across a concatenation: the front list answers if it can. */
  lemma {:induction false} LeverAppend(front: seq<Driver>, back: seq<Driver>)
    ensures Lever(front + back) == if Lever(front).Some? then Lever(front) else Lever(back)
    decreases |front|
  {
    if |front| > 0 {
      assert (front + back)[1..] == front[1..] + back;
      LeverAppend(front[1..], back);
    } else {
      assert front + back == back;
    }
  }

  // ------------------------------------------------------------------- poll

  /** What one registry poll learns from outside: the key state, the mouse
      reading, and the HID transport's outcomes. */
  datatype PollEnv = PollEnv(pressed: i32 -> bool, cursor: i16, hid: Hid.PollInput)

  /** One driver's `poll`; a driver that cannot be polled is returned as is. */
  function PollOne(d: Driver, env: PollEnv): (r: Driver)
    ensures r.SameKind(d)
    ensures !d.Pollable() ==> r == d
  {
    match d
    case KeyboardDriver(k) => KeyboardDriver(Keyboard.Poll(k, env.pressed).0)
    case MouseDriver(m) => MouseDriver(Mouse.Poll(m, env.cursor).0)
    case LedDebugDriver => d
    case HidDriver(h) => HidDriver(Hid.Poll(h, env.hid).0)
  }

  /** `poll` (mod.rs:78-84): every pollable driver is polled, in order; the
      others are left alone and the list keeps its length and kinds. */
  function PollAll(ds: seq<Driver>, env: PollEnv): (r: seq<Driver>)
    ensures |r| == |ds|
    ensures forall i :: 0 <= i < |ds| ==> r[i].SameKind(ds[i])
    ensures forall i :: 0 <= i < |ds| && !ds[i].Pollable() ==> r[i] == ds[i]
    ensures forall i :: 0 <= i < |ds| && ds[i].Pollable() ==> r[i] == PollOne(ds[i], env)
    decreases |ds|
  {
    if |ds| == 0 then []
    else [PollOne(ds[0], env)] + PollAll(ds[1..], env)
  }

  /** Polling keeps the set of capabilities in the list, so a registry that
      had a lever driver still has one, at the same place. */
  lemma PollKeepsLeverSource(ds: seq<Driver>, env: PollEnv)
    ensures Lever(PollAll(ds, env)).Some? <==> Lever(ds).Some?
  {
    var r := PollAll(ds, env);
    assert forall i :: 0 <= i < |ds| ==> (r[i].LeverSource() <==> ds[i].LeverSource());
  }

  // ------------------------------------------------------------------- LEDs

  /** What an LED driver emits: the debug sink's printed values, or the
      report the HID driver wrote, if it wrote one. */
  datatype Emission = DebugValues(values: seq<int>) | HidReport(report: Option<seq<u8>>)

  /** One driver's `set_led`; a driver that takes no LED mask emits nothing. */
  function SetLedOne(d: Driver, data: bv32, io: Hid.LedInput): (r: (Driver, Option<Emission>))
    ensures r.0.SameKind(d)
    ensures r.1.Some? <==> d.LightSink()
    ensures !d.LightSink() ==> r.0 == d
  {
    match d
    case LedDebugDriver => (d, Some(DebugValues(LedDebug.SetLed(data))))
    case HidDriver(h) =>
      var res := Hid.SetLed(h, data, io);
      (HidDriver(res.hid), Some(HidReport(res.report)))
    case _ => (d, None)
  }

  /** `set_led` (mod.rs:118-124): the mask goes to every LED driver in order;
      position `i` of the emissions belongs to driver `i`. */
  function SetLedAll(ds: seq<Driver>, data: bv32, io: Hid.LedInput): (r: (seq<Driver>, seq<Option<Emission>>))
    ensures |r.0| == |ds| && |r.1| == |ds|
    ensures forall i :: 0 <= i < |ds| ==> r.0[i].SameKind(ds[i])
    ensures forall i :: 0 <= i < |ds| ==> (r.1[i].Some? <==> ds[i].LightSink())
    ensures forall i :: 0 <= i < |ds| && !ds[i].LightSink() ==> r.0[i] == ds[i]
    ensures forall i :: 0 <= i < |ds| ==> (r.0[i], r.1[i]) == SetLedOne(ds[i], data, io)
    decreases |ds|
  {
    if |ds| == 0 then ([], [])
    else
      var first := SetLedOne(ds[0], data, io);
      var rest := SetLedAll(ds[1..], data, io);
      ([first.0] + rest.0, [first.1] + rest.1)
  }

  /** Every LED driver receives the same mask: each debug output and each HID
      report written carries the light table's expansion of it. */
  lemma SetLedAllForwardsData(ds: seq<Driver>, data: bv32, io: Hid.LedInput)
    ensures var out := SetLedAll(ds, data, io).1;
      forall i :: 0 <= i < |out| && out[i].Some? ==>
        match out[i].value
        case DebugValues(v) => v == LedBits.Expand(data)
        case HidReport(rep) => rep.Some? ==> Hid.IsReport(rep.value, LedBits.Expand(data))
  {
    LedDebug.SetLedMatchesTable(data);
  }

  // ------------------------------------------------------------ new & init

  /** `Drivers::new`: an empty registry. */
  function New(): (ds: seq<Driver>)
    ensures |ds| == 0
  {
    []
  }

  /** A new registry reports no buttons and no lever. */
  lemma NewIsQuiet(c: Cluster)
    ensures OrMasks(New(), c) == 0
    ensures Lever(New()) == None
  {
    NoButtonSourceNoButtons(New(), c);
  }

  /** Whether the configuration enables the driver kind of the given rank. */
  predicate Enabled(cfg: Config, rank: nat)
  {
    match rank
    case 0 => cfg.keyboard.enabled
    case 1 => cfg.mouse.enabled
    case 2 => cfg.ledDebug.enabled
    case 3 => cfg.hid.enabled
    case _ => false
  }

  /** How many of the first `n` kinds are enabled. */
  function EnabledBelow(cfg: Config, n: nat): nat
  {
    if n == 0 then 0 else EnabledBelow(cfg, n - 1) + (if Enabled(cfg, n - 1) then 1 else 0)
  }

  /** The driver `init` constructs for each kind. `hidConnect` is the outcome
      of the HID board's connection attempt at construction. */
  function Fresh(rank: nat, cfg: Config, hidConnect: Option<Hid.Handle>): (d: Driver)
    requires rank < 4
    ensures d.Rank() == rank
  {
    match rank
    case 0 => KeyboardDriver(Keyboard.New(cfg.keyboard))
    case 1 => MouseDriver(Mouse.New())
    case 2 => LedDebugDriver
    case 3 => HidDriver(Hid.New(cfg.hid, hidConnect))
  }

  predicate Ascending(a: seq<Driver>)
  {
    forall i, j :: 0 <= i < j < |a| ==> a[i].Rank() < a[j].Rank()
  }

  /** The drivers `init` adds for the first `n` kinds, in rank order. */
  function AddedUpTo(cfg: Config, hidConnect: Option<Hid.Handle>, n: nat): (a: seq<Driver>)
    requires n <= 4
    ensures |a| == EnabledBelow(cfg, n)
  {
    if n == 0 then []
    else
      var p := AddedUpTo(cfg, hidConnect, n - 1);
      if Enabled(cfg, n - 1) then p + [Fresh(n - 1, cfg, hidConnect)] else p
  }

  /** The added drivers come in strictly increasing rank, all below `n`. */
  lemma {:induction false} AddedAscending(cfg: Config, hidConnect: Option<Hid.Handle>, n: nat)
    requires n <= 4
    ensures Ascending(AddedUpTo(cfg, hidConnect, n))
    ensures forall i :: 0 <= i < |AddedUpTo(cfg, hidConnect, n)| ==> AddedUpTo(cfg, hidConnect, n)[i].Rank() < n
  {
    if n > 0 {
      AddedAscending(cfg, hidConnect, n - 1);
    }
  }

  /** A kind below `n` is among the added drivers exactly when it is enabled. */
  lemma {:induction false} AddedExactlyEnabled(cfg: Config, hidConnect: Option<Hid.Handle>, n: nat)
    requires n <= 4
    ensures forall rank :: 0 <= rank < n ==>
      (Enabled(cfg, rank) <==> exists i :: 0 <= i < |AddedUpTo(cfg, hidConnect, n)| && AddedUpTo(cfg, hidConnect, n)[i].Rank() == rank)
  {
    if n > 0 {
      var p := AddedUpTo(cfg, hidConnect, n - 1);
      var a := AddedUpTo(cfg, hidConnect, n);
      AddedExactlyEnabled(cfg, hidConnect, n - 1);
      AddedAscending(cfg, hidConnect, n - 1);
      assert forall i :: 0 <= i < |p| ==> a[i] == p[i];
      if Enabled(cfg, n - 1) {
        assert a[|p|].Rank() == n - 1;
      }
    }
  }

  /** Every added driver is the freshly constructed one of its kind. */
  lemma {:induction false} AddedFresh(cfg: Config, hidConnect: Option<Hid.Handle>, n: nat)
    requires n <= 4
    ensures forall i :: 0 <= i < |AddedUpTo(cfg, hidConnect, n)| ==>
      AddedUpTo(cfg, hidConnect, n)[i] == Fresh(AddedUpTo(cfg, hidConnect, n)[i].Rank(), cfg, hidConnect)
  {
    if n > 0 {
      AddedFresh(cfg, hidConnect, n - 1);
    }
  }

  /** `init` (mod.rs:63-75) after the configuration has been read: the
      existing drivers stay in front; after them come, in the order keyboard,
      mouse, debug sink, HID board, exactly the enabled ones, each freshly
      constructed. */
  function Init(ds: seq<Driver>, cfg: Config, hidConnect: Option<Hid.Handle>): (r: seq<Driver>)
    ensures |ds| <= |r| && r[..|ds|] == ds
    ensures var added := r[|ds|..];
      && |added| == EnabledBelow(cfg, 4)
      && Ascending(added)
      && (forall rank :: 0 <= rank < 4 ==>
            (Enabled(cfg, rank) <==> exists i :: 0 <= i < |added| && added[i].Rank() == rank))
      && (forall i :: 0 <= i < |added| ==> added[i] == Fresh(added[i].Rank(), cfg, hidConnect))
  {
    var added := AddedUpTo(cfg, hidConnect, 4);
    AddedAscending(cfg, hidConnect, 4);
    AddedExactlyEnabled(cfg, hidConnect, 4);
    AddedFresh(cfg, hidConnect, 4);
    assert (ds + added)[..|ds|] == ds;
    assert (ds + added)[|ds|..] == added;
    ds + added
  }

  /** Initialising an empty registry with the default configuration gives a
      keyboard, a centred mouse and the debug sink, in that order. */
  lemma InitDefault(hidConnect: Option<Hid.Handle>)
    ensures Init(New(), Default, hidConnect)
      == [KeyboardDriver(Keyboard.New(DefaultKeyBoard)), MouseDriver(Mouse.New()), LedDebugDriver]
  {
    var k := KeyboardDriver(Keyboard.New(DefaultKeyBoard));
    assert AddedUpTo(Default, hidConnect, 1) == [k];
    assert AddedUpTo(Default, hidConnect, 2) == [k, MouseDriver(Mouse.New())];
    assert AddedUpTo(Default, hidConnect, 3) == [k, MouseDriver(Mouse.New()), LedDebugDriver];
    assert AddedUpTo(Default, hidConnect, 4) == AddedUpTo(Default, hidConnect, 3);
  }

  /** The default registry holds no button and its lever reads the mouse's 0. */
  lemma DefaultRegistryQuiet(c: Cluster)
    ensures var r := [KeyboardDriver(Keyboard.New(DefaultKeyBoard)), MouseDriver(Mouse.New()), LedDebugDriver];
      OrMasks(r, c) == 0 && Lever(r) == Some(0)
  {
    var r := [KeyboardDriver(Keyboard.New(DefaultKeyBoard)), MouseDriver(Mouse.New()), LedDebugDriver];
    forall b: nat | b < 8
      ensures BitOf(OrMasks(r, c), b) == BitOf(0, b)
    {
      assert !Contributes(r[0], c, b);
    }
    SameBits(OrMasks(r, c), 0);
  }

  /** With a keyboard in front of a mouse, the lever comes from the mouse. */
  lemma KeyboardThenMouseLever(k: Keyboard.KeyBoard, m: Mouse.Mouse)
    ensures Lever([KeyboardDriver(k), MouseDriver(m)]) == Some(m.lever)
  {
  }
}
