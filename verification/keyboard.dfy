/** The keyboard driver (`KeyBoard`): three button masks read from the
    keyboard and the two mouse buttons on every poll.

    The operating system's key-state query is a parameter: `pressed(key)` says
    whether the key with that Windows virtual-key code is currently down. */
module Keyboard {
  import opened Types
  import opened Enums
  import opened Config

  /** The fixed game keys (Windows virtual-key codes). */
  const LeftBtn1Key: i32 := 0x41   // A
  const LeftBtn2Key: i32 := 0x53   // S
  const LeftBtn3Key: i32 := 0x44   // D
  const LeftMenuKey: i32 := 0x55   // U
  const LeftSideKey: i32 := 0x01   // left mouse button
  const RightBtn1Key: i32 := 0x4A  // J
  const RightBtn2Key: i32 := 0x4B  // K
  const RightBtn3Key: i32 := 0x4C  // L
  const RightMenuKey: i32 := 0x4F  // O
  const RightSideKey: i32 := 0x02  // right mouse button

  datatype KeyBoard = KeyBoard(opBtns: bv8, leftBtns: bv8, rightBtns: bv8, config: KeyBoardConfig)

  /** `KeyBoard::new`: nothing is held until the first poll. */
  function New(config: KeyBoardConfig): (k: KeyBoard)
    ensures k.opBtns == 0 && k.leftBtns == 0 && k.rightBtns == 0
    ensures k.config == config
  {
    KeyBoard(0, 0, 0, config)
  }

  function Flag(held: bool, bit: bv8): bv8
  {
    if held then bit else 0
  }

  /** The state of the watched keys as one poll reads them. */
  datatype Keys = Keys(
    test: bool, service: bool, coin: bool,
    left1: bool, left2: bool, left3: bool, leftMenu: bool, leftSide: bool,
    right1: bool, right2: bool, right3: bool, rightMenu: bool, rightSide: bool)

  function ReadKeys(config: KeyBoardConfig, pressed: i32 -> bool): Keys
  {
    Keys(pressed(config.test), pressed(config.service), pressed(config.coin),
         pressed(LeftBtn1Key), pressed(LeftBtn2Key), pressed(LeftBtn3Key),
         pressed(LeftMenuKey), pressed(LeftSideKey),
         pressed(RightBtn1Key), pressed(RightBtn2Key), pressed(RightBtn3Key),
         pressed(RightMenuKey), pressed(RightSideKey))
  }

  /** `poll` (keyboard.rs:28-76): every mask is rebuilt from scratch. An
      operator bit is set exactly when its configured key is down, a game bit
      exactly when its fixed key is down, and no other bit is ever set. */
  function Poll(k: KeyBoard, pressed: i32 -> bool): (r: (KeyBoard, HResult))
    ensures r.1 == Ok && r.0.config == k.config
    ensures (r.0.opBtns & Test != 0) <==> pressed(k.config.test)
    ensures (r.0.opBtns & Service != 0) <==> pressed(k.config.service)
    ensures (r.0.opBtns & Coin != 0) <==> pressed(k.config.coin)
    ensures (r.0.leftBtns & Btn1 != 0) <==> pressed(LeftBtn1Key)
    ensures (r.0.leftBtns & Btn2 != 0) <==> pressed(LeftBtn2Key)
    ensures (r.0.leftBtns & Btn3 != 0) <==> pressed(LeftBtn3Key)
    ensures (r.0.leftBtns & Menu != 0) <==> pressed(LeftMenuKey)
    ensures (r.0.leftBtns & Side != 0) <==> pressed(LeftSideKey)
    ensures (r.0.rightBtns & Btn1 != 0) <==> pressed(RightBtn1Key)
    ensures (r.0.rightBtns & Btn2 != 0) <==> pressed(RightBtn2Key)
    ensures (r.0.rightBtns & Btn3 != 0) <==> pressed(RightBtn3Key)
    ensures (r.0.rightBtns & Menu != 0) <==> pressed(RightMenuKey)
    ensures (r.0.rightBtns & Side != 0) <==> pressed(RightSideKey)
    ensures r.0.opBtns & !OpBits == 0
    ensures r.0.leftBtns & !GameBits == 0 && r.0.rightBtns & !GameBits == 0
  {
    var keys := ReadKeys(k.config, pressed);
    var op := Flag(keys.test, Test) | Flag(keys.service, Service) | Flag(keys.coin, Coin);
    var left := Flag(keys.left1, Btn1) | Flag(keys.left2, Btn2) | Flag(keys.left3, Btn3)
      | Flag(keys.leftMenu, Menu) | Flag(keys.leftSide, Side);
    var right := Flag(keys.right1, Btn1) | Flag(keys.right2, Btn2) | Flag(keys.right3, Btn3)
      | Flag(keys.rightMenu, Menu) | Flag(keys.rightSide, Side);
    (k.(opBtns := op, leftBtns := left, rightBtns := right), Ok)
  }

  /** The keys a poll looks at: the three configured operator keys and the ten
      fixed game keys. */
  function Watched(config: KeyBoardConfig): set<i32>
  {
    {config.test, config.service, config.coin,
     LeftBtn1Key, LeftBtn2Key, LeftBtn3Key, LeftMenuKey, LeftSideKey,
     RightBtn1Key, RightBtn2Key, RightBtn3Key, RightMenuKey, RightSideKey}
  }

  /** Poll is memoryless and exact: two key states give the same masks if and
      only if they agree on every watched key, whatever the masks were before. */
  lemma PollSeesExactlyWatchedKeys(k1: KeyBoard, k2: KeyBoard, pressed1: i32 -> bool, pressed2: i32 -> bool)
    requires k1.config == k2.config
    ensures Poll(k1, pressed1).0 == Poll(k2, pressed2).0
        <==> forall key :: key in Watched(k1.config) ==> pressed1(key) == pressed2(key)
  {
    if Poll(k1, pressed1).0 == Poll(k2, pressed2).0 {
      SameMasksSameKeys(k1, k2, pressed1, pressed2);
    }
    if forall key :: key in Watched(k1.config) ==> pressed1(key) == pressed2(key) {
      SameKeysSameMasks(k1, k2, pressed1, pressed2);
    }
  }

  /** The forward direction. The body only splits on which watched key is
      meant, so that each case names the mask bit that decides it. */
  lemma SameMasksSameKeys(k1: KeyBoard, k2: KeyBoard, pressed1: i32 -> bool, pressed2: i32 -> bool)
    requires k1.config == k2.config
    requires Poll(k1, pressed1).0 == Poll(k2, pressed2).0
    ensures forall key :: key in Watched(k1.config) ==> pressed1(key) == pressed2(key)
  {
    var c := k1.config;
    forall key | key in Watched(c)
      ensures pressed1(key) == pressed2(key)
    {
      if key == c.test {
        assert pressed1(c.test) == pressed2(c.test);
      } else if key == c.service {
        assert pressed1(c.service) == pressed2(c.service);
      } else if key == c.coin {
        assert pressed1(c.coin) == pressed2(c.coin);
      } else if key == LeftBtn1Key {
        assert pressed1(LeftBtn1Key) == pressed2(LeftBtn1Key);
      } else if key == LeftBtn2Key {
        assert pressed1(LeftBtn2Key) == pressed2(LeftBtn2Key);
      } else if key == LeftBtn3Key {
        assert pressed1(LeftBtn3Key) == pressed2(LeftBtn3Key);
      } else if key == LeftMenuKey {
        assert pressed1(LeftMenuKey) == pressed2(LeftMenuKey);
      } else if key == LeftSideKey {
        assert pressed1(LeftSideKey) == pressed2(LeftSideKey);
      } else if key == RightBtn1Key {
        assert pressed1(RightBtn1Key) == pressed2(RightBtn1Key);
      } else if key == RightBtn2Key {
        assert pressed1(RightBtn2Key) == pressed2(RightBtn2Key);
      } else if key == RightBtn3Key {
        assert pressed1(RightBtn3Key) == pressed2(RightBtn3Key);
      } else if key == RightMenuKey {
        assert pressed1(RightMenuKey) == pressed2(RightMenuKey);
      } else if key == RightSideKey {
        assert pressed1(RightSideKey) == pressed2(RightSideKey);
      }
    }
  }

  lemma SameKeysSameMasks(k1: KeyBoard, k2: KeyBoard, pressed1: i32 -> bool, pressed2: i32 -> bool)
    requires k1.config == k2.config
    requires forall key :: key in Watched(k1.config) ==> pressed1(key) == pressed2(key)
    ensures Poll(k1, pressed1).0 == Poll(k2, pressed2).0
  {
    assert ReadKeys(k1.config, pressed1) == ReadKeys(k2.config, pressed2);
  }

  /** Polling twice under the same key state gives the same driver as polling once. */
  lemma PollIdempotent(k: KeyBoard, pressed: i32 -> bool)
    ensures Poll(Poll(k, pressed).0, pressed).0 == Poll(k, pressed).0
  {
    PollSeesExactlyWatchedKeys(Poll(k, pressed).0, k, pressed, pressed);
  }

  /** With the default configuration, holding only key '1' reports only Test. */
  lemma DefaultTestKey()
    ensures var r := Poll(New(DefaultKeyBoard), key => key == 0x31).0;
      r.opBtns == Test && r.leftBtns == 0 && r.rightBtns == 0
  {
  }

  /** The accessors (keyboard.rs:78-88) report the masks the last poll stored. */
  function OpBtns(k: KeyBoard): (m: bv8)
    ensures m == k.opBtns
  {
    k.opBtns
  }

  function LeftBtns(k: KeyBoard): (m: bv8)
    ensures m == k.leftBtns
  {
    k.leftBtns
  }

  function RightBtns(k: KeyBoard): (m: bv8)
    ensures m == k.rightBtns
  {
    k.rightBtns
  }

  /** Through the accessors, a new keyboard reports no button, and after a
      poll with no watched key down it reports none either. */
  lemma AccessorsReportNothingIdle(config: KeyBoardConfig, k: KeyBoard, pressed: i32 -> bool)
    requires k.config == config
    requires forall key :: key in Watched(config) ==> !pressed(key)
    ensures OpBtns(New(config)) == 0 && LeftBtns(New(config)) == 0 && RightBtns(New(config)) == 0
    ensures var p := Poll(k, pressed).0;
      OpBtns(p) == 0 && LeftBtns(p) == 0 && RightBtns(p) == 0
  {
    SameKeysSameMasks(k, New(config), pressed, key => false);
  }
}
