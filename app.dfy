/**
 * matchArg (src/common/lib/app.c): the option list lookup behind the
 * enumerated command-line arguments.  An argument selects an option either
 * by its name, compared without regard to case, or by its position in the
 * list written as a decimal number.  The NULL-terminated C array of
 * options is a sequence here.
 */
module App {
  import opened Base
  import opened CText

  /**
   * The position an argument names when `strtol` reads all of it as a
   * number, and -1 when anything is left over.
   */
  function UserIndex(arg: string): (r: int)
    requires arg != []
    ensures !IsDigit(arg[|arg| - 1]) ==> r == -1
    ensures r != -1 ==> LONG_MIN <= r <= LONG_MAX
  {
    var (v, end) := StrToL(arg);
    if end < |arg| then -1
    else
      assert end > 0;
      LastDigit(arg);
      v
  }

  /** When `strtol` consumes a whole nonempty string, its last character is a digit. */
  lemma LastDigit(arg: string)
    requires arg != [] && StrToL(arg).1 == |arg|
    ensures IsDigit(arg[|arg| - 1])
  {
    var ws := SpaceRun(arg, 0);
    var start := if ws < |arg| && (arg[ws] == '+' || arg[ws] == '-') then ws + 1 else ws;
    var k := DigitRun(arg, start);
    assert k > 0 && start + k == |arg|;
  }

  /** Option i is the one `arg` asks for: by position or by name. */
  predicate Selects(arg: string, options: seq<string>, i: nat)
    requires arg != [] && i < |options|
  {
    i == UserIndex(arg) || EqualsIgnoreCase(arg, options[i])
  }

  /**
   * matchArg: the first option the argument selects, or -1 when there is
   * none or the argument is empty.
   */
  method MatchArg(arg: string, options: seq<string>) returns (index: int)
    ensures -1 <= index < |options|
    ensures arg == [] ==> index == -1
    ensures 0 <= index ==>
              arg != [] && Selects(arg, options, index) && forall j | 0 <= j < index :: !Selects(arg, options, j)
    ensures index == -1 && arg != [] ==> forall j | 0 <= j < |options| :: !Selects(arg, options, j)
  {
    if arg == [] {
      return -1;
    }
    var userIndex := UserIndex(arg);
    index := 0;
    while index < |options|
      invariant 0 <= index <= |options|
      invariant forall j | 0 <= j < index :: !Selects(arg, options, j)
    {
      if index == userIndex || EqualsIgnoreCase(arg, options[index]) {
        return index;
      }
      index := index + 1;
    }
    return -1;
  }

  /** The decimal rendering of a position selects the option at that position. */
  lemma NumberSelects(options: seq<string>, n: nat)
    requires n < |options| && n <= LONG_MAX
    ensures Selects(Dec(n), options, n)
  {
    StrToLDec(n);
  }
}
