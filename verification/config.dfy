/** The configuration snapshot the registry is built from.

    Loading and writing the TOML document is not modelled: a `Config` value is
    an input. The HID section is not declared in config.rs; its fields are the
    ones the HID driver reads. */
module Config {
  import opened Types

  datatype KeyBoardConfig = KeyBoardConfig(enabled: bool, test: i32, service: i32, coin: i32)

  datatype MouseConfig = MouseConfig(enabled: bool)

  datatype LEDebugConfig = LEDebugConfig(enabled: bool)

  /** USB identifiers of the controller board, the HID interface to open, and
      the two initial lever calibration bounds (in either order). */
  datatype HidConfig = HidConfig(
    enabled: bool,
    vid: u16,
    pid: u16,
    interface: i32,
    leverLeft: i16,
    leverRight: i16)

  datatype Config = Config(
    keyboard: KeyBoardConfig,
    mouse: MouseConfig,
    ledDebug: LEDebugConfig,
    hid: HidConfig)

  /** The keyboard section of the default configuration (config.rs:31-36):
      keys '1', '2' and '3' for test, service and coin. */
  const DefaultKeyBoard: KeyBoardConfig := KeyBoardConfig(true, 0x31, 0x32, 0x33)

  /** `Config::default` (config.rs:28-40): keyboard, mouse and debug sink
      enabled. The default has no HID section; here the board is disabled. */
  const Default: Config := Config(DefaultKeyBoard, MouseConfig(true), LEDebugConfig(true),
                                  HidConfig(false, 0, 0, 0, 0, 0))
}
