/** The mouse driver (`Mouse`): a lever reading taken from the cursor.

    How a cursor position becomes a reading is floating-point code and is not
    part of this model; the reading arrives as an input to `Poll`. */
module Mouse {
  import opened Types
  import opened Enums

  datatype Mouse = Mouse(lever: i16)

  /** `Mouse::new`: the lever starts centred. */
  function New(): (m: Mouse)
    ensures m.lever == 0
  {
    Mouse(0)
  }

  /** `poll` (mouse.rs:21-39): stores the reading; always succeeds. */
  function Poll(m: Mouse, reading: i16): (r: (Mouse, HResult))
    ensures r.0.lever == reading && r.1 == Ok
  {
    (Mouse(reading), Ok)
  }
}
