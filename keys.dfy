/** The symbolic key names the dialog reacts to, grouped into the classes
    its key handler distinguishes. */
module Keys {

  datatype Key =
    | Digit(code: int)  // KP_0 .. KP_9
    | Escape            // Escape
    | Confirm           // Return, KP_Return
    | Increase          // Up, Prior
    | Decrease          // Down, Next
    | MoveLeft          // Left
    | MoveRight         // Right
    | Other             // anything else

  /** The keypad name of digit d. */
  function KeypadName(d: int): string
    requires 0 <= d <= 9
  {
    "KP_" + [('0' as int + d) as char]
  }

  /** A keypad digit: "KP_" followed by exactly one decimal digit, so
      exactly the ten names KP_0 .. KP_9. */
  predicate IsKeypadDigit(name: string)
    ensures IsKeypadDigit(name) <==> exists d :: 0 <= d <= 9 && name == KeypadName(d)
  {
    var r := |name| == 4 && name[..3] == "KP_" && '0' <= name[3] <= '9';
    if r then
      assert name == KeypadName(name[3] as int - '0' as int);
      r
    else
      r
  }

  /** The numeric code of a keypad digit, from its fourth character. */
  function DigitCode(name: string): (code: int)
    requires IsKeypadDigit(name)
    ensures 0 <= code <= 9 && name == KeypadName(code)
  {
    assert name == name[..3] + [name[3]];
    name[3] as int - '0' as int
  }

  /** Classifies a key name; the keypad-digit test comes first, so
      "KP_Return" is a Confirm key and not a digit. */
  function Classify(name: string): (k: Key)
    ensures k.Digit? <==> IsKeypadDigit(name)
    ensures k.Digit? ==> 0 <= k.code <= 9 && name == KeypadName(k.code)
    ensures k == Escape <==> name == "Escape"
    ensures k == Confirm <==> name == "Return" || name == "KP_Return"
    ensures k == Increase <==> name == "Up" || name == "Prior"
    ensures k == Decrease <==> name == "Down" || name == "Next"
    ensures k == MoveLeft <==> name == "Left"
    ensures k == MoveRight <==> name == "Right"
  {
    if IsKeypadDigit(name) then
      assert name == name[..3] + [name[3]];
      Digit(DigitCode(name))
    else if name == "Escape" then Escape
    else if name == "Return" || name == "KP_Return" then Confirm
    else if name == "Up" || name == "Prior" then Increase
    else if name == "Down" || name == "Next" then Decrease
    else if name == "Left" then MoveLeft
    else if name == "Right" then MoveRight
    else Other
  }

  /** One name that produces each key class. */
  function KeyName(k: Key): string
    requires k.Digit? ==> 0 <= k.code <= 9
  {
    match k
    case Digit(code) => KeypadName(code)
    case Escape => "Escape"
    case Confirm => "Return"
    case Increase => "Up"
    case Decrease => "Down"
    case MoveLeft => "Left"
    case MoveRight => "Right"
    case Other => "Home"
  }

  lemma ClassifyKeyName(k: Key)
    requires k.Digit? ==> 0 <= k.code <= 9
    ensures Classify(KeyName(k)) == k
  {
    if k.Digit? {
      assert IsKeypadDigit(KeyName(k));
    }
  }
}
