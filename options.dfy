/**
 * `get_bool_opt` (src/main.rs:148-158), which reads a command-line flag that
 * may be absent, given bare, or given with a value: `--keep-raw-binary`,
 * `--keep-raw-binary true`, `--keep-raw-binary false`.
 */
module Options {
  import opened Wrappers

  /** An absent flag is false, a bare flag true, and a flag with a value takes that value. */
  function GetBoolOpt(arg: Option<Option<bool>>): (r: bool)
    ensures arg == None ==> !r
    ensures arg == Some(None) ==> r
    ensures forall b: bool :: arg == Some(Some(b)) ==> r == b
  {
    match arg
    case None => false
    case Some(opt) =>
      match opt
      case None => true
      case Some(b) => b
  }

  /**
   * The flag is on exactly when it is given bare or with the value `true`;
   * `false` given explicitly turns it off just like leaving it out.
   */
  lemma GetBoolOptOnExactly(arg: Option<Option<bool>>)
    ensures GetBoolOpt(arg) <==> arg == Some(None) || arg == Some(Some(true))
    ensures !GetBoolOpt(arg) <==> arg == None || arg == Some(Some(false))
  {
    match arg
    case None =>
    case Some(opt) =>
      match opt
      case None =>
      case Some(b) =>
  }
}
