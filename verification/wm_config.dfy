/** The compositor configuration of src/wm/wm_config.c: defaults, the
    cursor size taken from the environment, and the list of per-output
    settings. C strings are modelled by their contents (the characters
    before the terminator). The buffer size of output names is not in the
    shown header, so it is a parameter `strLen` (terminator included). */
module WmConfig {
  import opened Util

  // ---------------------------------------------------------------------
  // XCURSOR_SIZE
  // ---------------------------------------------------------------------

  /** The width of C `unsigned long` and `unsigned` on the targets. */
  const ULongMax: nat := 0x1_0000_0000_0000_0000 - 1
  const UIntModulus: nat := 0x1_0000_0000

  const DefaultCursorSize: nat := 24

  /** `isspace` in the C locale. */
  predicate IsSpace(c: char)
  {
    c == ' ' || c == '\t' || c == '\n' || c == '\U{B}' || c == '\U{C}' || c == '\r'
  }

  predicate IsDigit(c: char)
  {
    '0' as int <= c as int <= '9' as int
  }

  /** The number of leading characters satisfying the digit test. */
  function DigitRun(s: string): (n: nat)
    ensures n <= |s|
    ensures forall k :: 0 <= k < n ==> IsDigit(s[k])
    ensures n < |s| ==> !IsDigit(s[n])
  {
    if |s| == 0 || !IsDigit(s[0]) then 0 else 1 + DigitRun(s[1..])
  }

  /** The number of leading white-space characters. */
  function SpaceRun(s: string): (n: nat)
    ensures n <= |s|
    ensures n < |s| ==> !IsSpace(s[n])
  {
    if |s| == 0 || !IsSpace(s[0]) then 0 else 1 + SpaceRun(s[1..])
  }

  /** The value of a string of decimal digits, most significant first. */
  function DecimalValue(s: string): nat
    requires forall k :: 0 <= k < |s| ==> IsDigit(s[k])
  {
    if |s| == 0 then 0
    else
      assert IsDigit(s[|s| - 1]);
      DecimalValue(s[..|s| - 1]) * 10 + (s[|s| - 1] as int - '0' as int)
  }

  /** `strtoul(s, &end, 10)` with the check `!*end && errno == 0`: None
      unless the whole string is optional white space, an optional sign
      and at least one digit, and the value fits an `unsigned long`; a
      minus sign negates modulo 2^64. */
  function StrToUL(s: string): (r: Option<nat>)
    ensures r.Some? ==> r.value <= ULongMax
  {
    var i := SpaceRun(s);
    var neg := i < |s| && s[i] == '-';
    var j := if i < |s| && (s[i] == '+' || s[i] == '-') then i + 1 else i;
    var n := DigitRun(s[j..]);
    if n == 0 || j + n != |s| then None
    else
      var v := DecimalValue(s[j..]);
      if v > ULongMax then None
      else Some(if neg then (ULongMax + 1 - v) % (ULongMax + 1) else v)
  }

  /** The cursor size chosen by `wm_config_init_default` for the value of
      XCURSOR_SIZE (None when unset): the parsed value, cut to `unsigned`,
      when the whole non-empty string parses, and 24 otherwise. */
  function CursorSize(env: Option<string>): (r: nat)
    ensures r < UIntModulus
    ensures env.None? || env.value == "" || StrToUL(env.value).None? ==> r == DefaultCursorSize
  {
    if env.Some? && |env.value| > 0 then
      match StrToUL(env.value)
      case Some(v) => v % UIntModulus
      case None => DefaultCursorSize
    else DefaultCursorSize
  }

  /** The decimal rendering of a number, without sign or leading zeros. */
  function Decimal(n: nat): (s: string)
    ensures |s| > 0 && forall k :: 0 <= k < |s| ==> IsDigit(s[k])
  {
    var d := [('0' as int + n % 10) as char];
    if n < 10 then d else Decimal(n / 10) + d
  }

  lemma {:induction false} DecimalValueOfDecimal(n: nat)
    ensures DecimalValue(Decimal(n)) == n
  {
    var s := Decimal(n);
    if n >= 10 {
      DecimalValueOfDecimal(n / 10);
      assert s[..|s| - 1] == Decimal(n / 10);
    }
  }

  lemma {:induction false} DigitRunAll(s: string)
    requires forall k :: 0 <= k < |s| ==> IsDigit(s[k])
    ensures DigitRun(s) == |s|
  {
    if |s| > 0 {
      DigitRunAll(s[1..]);
    }
  }

  /** A size written in decimal is taken as it is. */
  lemma CursorSizeOfDecimal(n: nat)
    requires n < UIntModulus
    ensures CursorSize(Some(Decimal(n))) == n
  {
    var s := Decimal(n);
    DigitRunAll(s);
    DecimalValueOfDecimal(n);
    assert s[0..] == s;
  }

  /** A trailing character that is not a digit, such as a unit suffix or
      a trailing space, leaves the default in place. */
  lemma CursorSizeTrailing(s: string, c: char)
    requires !IsDigit(c)
    ensures CursorSize(Some(s + [c])) == DefaultCursorSize
  {
    var t := s + [c];
    var i := SpaceRun(t);
    var j := if i < |t| && (t[i] == '+' || t[i] == '-') then i + 1 else i;
    if j < |t| {
      assert t[j..][|t| - j - 1] == c;
    }
  }

  // ---------------------------------------------------------------------
  // The configuration record
  // ---------------------------------------------------------------------

  /** `struct wm_config_output`. */
  datatype OutputConfig = OutputConfig(
    name: string, scale: real, width: int, height: int, mHz: int, posX: int, posY: int, transform: int)

  /** `struct wm_config`; `outputs` is the list head first. */
  datatype Config = Config(
    enableXwayland: bool,
    callbackFrequency: int,
    xkbModel: string, xkbLayout: string, xkbOptions: string,
    outputs: seq<OutputConfig>,
    xcursorTheme: Option<string>,
    xcursorSize: nat,
    naturalScroll: bool, tapToClick: bool,
    focusFollowsMouse: bool, constrainPopupsToToplevel: bool,
    encourageCsd: bool, debug: bool)

  /** `wm_config_init_default`, given XCURSOR_THEME and XCURSOR_SIZE. */
  function InitDefault(theme: Option<string>, sizeEnv: Option<string>): (c: Config)
    ensures !c.enableXwayland && c.callbackFrequency == 20
    ensures c.xkbModel == "" && c.xkbLayout == "" && c.xkbOptions == ""
    ensures c.outputs == [] && c.xcursorTheme == theme
    ensures c.naturalScroll && c.tapToClick && c.focusFollowsMouse && !c.constrainPopupsToToplevel
    ensures c.encourageCsd && !c.debug
    ensures sizeEnv.None? ==> c.xcursorSize == DefaultCursorSize
    ensures sizeEnv.Some? && sizeEnv.value != "" && StrToUL(sizeEnv.value).Some? ==>
              c.xcursorSize == StrToUL(sizeEnv.value).value % UIntModulus
  {
    Config(false, 20, "", "", "", [], theme, CursorSize(sizeEnv), true, true, true, false, true, false)
  }

  /** `wm_config_reset_default`: every output entry is freed and the
      defaults are restored. */
  function ResetDefault(c: Config, theme: Option<string>, sizeEnv: Option<string>): (r: Config)
    ensures r.outputs == [] && r == InitDefault(theme, sizeEnv)
  {
    InitDefault(theme, sizeEnv)
  }

  /** `wm_config_destroy`: the output entries are freed; the rest stays. */
  function Destroy(c: Config): (r: Config)
    ensures r.outputs == [] && r == c.(outputs := [])
  {
    c.(outputs := [])
  }

  /** `strncpy(dst, name, strLen - 1)` into a zeroed buffer. */
  function Truncate(name: string, strLen: nat): (r: string)
    requires strLen >= 1
    ensures |r| <= strLen - 1 && r <= name
    ensures |name| <= strLen - 1 ==> r == name
  {
    if |name| <= strLen - 1 then name else name[..strLen - 1]
  }

  /** `wm_config_add_output`: without a name nothing happens; otherwise
      the new entry goes to the head of the list. */
  function AddOutput(c: Config, name: Option<string>, strLen: nat, scale: real, width: int, height: int,
                     mHz: int, posX: int, posY: int, transform: int): (r: Config)
    requires strLen >= 1
    ensures name.None? ==> r == c
    ensures name.Some? ==>
              && r == c.(outputs := r.outputs)
              && |r.outputs| == |c.outputs| + 1 && r.outputs[1..] == c.outputs
              && r.outputs[0] == OutputConfig(Truncate(name.value, strLen), scale, width, height, mHz, posX, posY, transform)
  {
    if name.None? then c
    else c.(outputs := [OutputConfig(Truncate(name.value, strLen), scale, width, height, mHz, posX, posY, transform)] + c.outputs)
  }

  /** The first entry named `name`. */
  function NameIndex(outputs: seq<OutputConfig>, name: string): (r: Option<nat>)
    ensures r.Some? ==> r.value < |outputs| && outputs[r.value].name == name
    ensures r.Some? ==> forall k :: 0 <= k < r.value ==> outputs[k].name != name
    ensures r.None? ==> forall k :: 0 <= k < |outputs| ==> outputs[k].name != name
  {
    if |outputs| == 0 then None
    else if outputs[0].name == name then Some(0)
    else match NameIndex(outputs[1..], name)
      case None => None
      case Some(i) => Some(i + 1)
  }

  /** `wm_config_find_output`: None for a NULL name; otherwise the
      position of the first entry of that name, or None. */
  function FindOutput(c: Config, name: Option<string>): (r: Option<nat>)
    ensures name.None? ==> r.None?
    ensures name.Some? ==> r == NameIndex(c.outputs, name.value)
  {
    if name.None? then None else NameIndex(c.outputs, name.value)
  }

  /** The most recently added entry for a name wins; a name longer than
      the buffer is stored truncated and can no longer be found under its
      full form through the new entry. */
  lemma AddThenFind(c: Config, name: string, strLen: nat, scale: real, width: int, height: int,
                    mHz: int, posX: int, posY: int, transform: int)
    requires strLen >= 1
    ensures var r := AddOutput(c, Some(name), strLen, scale, width, height, mHz, posX, posY, transform);
            && (|name| <= strLen - 1 ==> FindOutput(r, Some(name)) == Some(0))
            && (|name| > strLen - 1 ==> FindOutput(r, Some(name)) != Some(0))
            && FindOutput(r, Some(r.outputs[0].name)) == Some(0)
  {
  }
}
