/**
 * The movement-string check: the entered line is upper-cased, and it is
 * accepted only if every character is one of N, S, E and W.
 */
module Input {
  import opened Field

  /**
   * Upper-casing of one character: the ASCII letters a to z, and the long s
   * (U+017F), whose Unicode simple upper-case mapping is S.
   */
  function UpperChar(c: char): char
  {
    if 'a' <= c <= 'z' then (c as int - 32) as char
    else if c == '\U{017F}' then 'S'
    else c
  }

  /** The entered line, upper-cased character by character. */
  function ToUpper(line: string): string
  {
    seq(|line|, k requires 0 <= k < |line| => UpperChar(line[k]))
  }

  /**
   * One pass of the check: the line is upper-cased, then scanned until the
   * first character that is not a move; the string is valid only if there is none.
   */
  method CheckMovements(line: string) returns (movements: string, valid: bool)
    ensures movements == ToUpper(line)
    ensures valid <==> forall k :: 0 <= k < |movements| ==> IsMove(movements[k])
  {
    movements := ToUpper(line);
    valid := true;
    for k := 0 to |movements|
      invariant valid
      invariant forall t :: 0 <= t < k ==> IsMove(movements[t])
    {
      var move := movements[k];
      if move != 'N' && move != 'S' && move != 'E' && move != 'W' {
        valid := false;
        break;
      }
    }
  }

  /**
   * The check is case-insensitive: a line passes exactly when each of its
   * characters is one of N, S, E, W in either case, or the long s.
   */
  lemma AcceptedLines(line: string)
    ensures (forall k :: 0 <= k < |line| ==> IsMove(ToUpper(line)[k]))
        <==> (forall k :: 0 <= k < |line| ==> line[k] in "NSEWnsew\U{017F}")
  {
    forall k | 0 <= k < |line|
      ensures IsMove(ToUpper(line)[k]) <==> line[k] in "NSEWnsew\U{017F}"
    {
      var c := line[k];
      assert ToUpper(line)[k] == UpperChar(c);
      if 'a' <= c <= 'z' {
        assert c == 'n' <==> UpperChar(c) == 'N';
        assert c == 's' <==> UpperChar(c) == 'S';
        assert c == 'e' <==> UpperChar(c) == 'E';
        assert c == 'w' <==> UpperChar(c) == 'W';
      }
    }
  }
}
