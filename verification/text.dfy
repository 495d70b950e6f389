/**
 The string operations a generated prompt goes through before it is stored:
 JavaScript's `String.prototype.trim` and `slice(0, -1)`, plus the two ways of
 laying out a list of values with the ", " separator.

 Strings are sequences of code points. JavaScript strings are sequences of
 UTF-16 code units; the difference never shows here, because every character
 `trim` removes lies in the Basic Multilingual Plane and the character that
 `slice(0, -1)` drops is always a comma.
 */
module Text {

  /** The separator appended after every chosen value. */
  const Separator: string := ", "

  /** The characters `trim` removes: the WhiteSpace and LineTerminator
      code points of ECMA-262. */
  predicate IsJsWhitespace(c: char) {
    || c == '\t' || c == '\n' || c == '\U{0B}' || c == '\U{0C}' || c == '\r'
    || c == ' ' || c == '\U{A0}' || c == '\U{1680}'
    || ('\U{2000}' <= c <= '\U{200A}')
    || c == '\U{2028}' || c == '\U{2029}' || c == '\U{202F}' || c == '\U{205F}'
    || c == '\U{3000}' || c == '\U{FEFF}'
  }

  /** True if `s` does not begin with a character `trim` would remove. */
  predicate StartsClean(s: string) {
    |s| == 0 || !IsJsWhitespace(s[0])
  }

  /** Removes leading whitespace. */
  function TrimStart(s: string): string {
    if |s| > 0 && IsJsWhitespace(s[0]) then TrimStart(s[1..]) else s
  }

  /** `TrimStart` removes the longest all-whitespace prefix: what remains is
      a suffix that does not begin with whitespace, and all that went was
      whitespace. */
  lemma {:induction false} TrimStartSpec(s: string)
    ensures var r := TrimStart(s);
      && |r| <= |s| && r == s[|s| - |r|..]
      && StartsClean(r)
      && forall i :: 0 <= i < |s| - |r| ==> IsJsWhitespace(s[i])
  {
    if |s| > 0 && IsJsWhitespace(s[0]) {
      TrimStartSpec(s[1..]);
    }
  }

  /** Removes trailing whitespace. */
  function TrimEnd(s: string): string {
    if |s| > 0 && IsJsWhitespace(s[|s| - 1]) then TrimEnd(s[..|s| - 1]) else s
  }

  /** `TrimEnd` removes the longest all-whitespace suffix: what remains is a
      prefix that does not end with whitespace, and all that went was
      whitespace. */
  lemma {:induction false} TrimEndSpec(s: string)
    ensures var r := TrimEnd(s);
      && |r| <= |s| && r == s[..|r|]
      && (|r| == 0 || !IsJsWhitespace(r[|r| - 1]))
      && forall i :: |r| <= i < |s| ==> IsJsWhitespace(s[i])
  {
    if |s| > 0 && IsJsWhitespace(s[|s| - 1]) {
      TrimEndSpec(s[..|s| - 1]);
    }
  }

  /** `s.trim()` */
  function Trim(s: string): string {
    TrimEnd(TrimStart(s))
  }

  /** `s.slice(0, -1)`: the end index is `max(|s| - 1, 0)`. */
  function DropLast(s: string): string {
    if |s| == 0 then s else s[..|s| - 1]
  }

  /** What a completed accumulator becomes: `current.trim().slice(0, -1)`. */
  function Finalise(s: string): string {
    DropLast(Trim(s))
  }

  /** The accumulator after choosing `values` in turn: each value followed by
      the separator. */
  function Terminated(values: seq<string>): string {
    if |values| == 0 then "" else values[0] + Separator + Terminated(values[1..])
  }

  /** Concatenation is associative. */
  lemma ConcatAssoc(a: string, b: string, c: string)
    ensures a + (b + c) == (a + b) + c
  {
  }

  /** Choosing one more value first puts it and a separator in front. */
  lemma TerminatedCons(t: string, values: seq<string>)
    ensures Terminated([t] + values) == t + Separator + Terminated(values)
  {
    assert ([t] + values)[1..] == values;
  }

  /** The values joined by the separator, with none after the last one. */
  function Join(values: seq<string>): string {
    if |values| == 0 then ""
    else if |values| == 1 then values[0]
    else values[0] + Separator + Join(values[1..])
  }

  /** The accumulator is the join followed by one trailing separator. */
  lemma {:induction false} TerminatedIsJoinThenSeparator(values: seq<string>)
    requires |values| > 0
    ensures Terminated(values) == Join(values) + Separator
  {
    if |values| > 1 {
      TerminatedIsJoinThenSeparator(values[1..]);
      assert Terminated(values)
          == values[0] + Separator + (Join(values[1..]) + Separator);
    }
  }

  /** A comma stops `trim`, so leading whitespace is removed from the part in
      front of it only. */
  lemma {:induction false} TrimStartBeforeSeparator(x: string)
    ensures TrimStart(x + Separator) == TrimStart(x) + Separator
  {
    if |x| > 0 && IsJsWhitespace(x[0]) {
      assert (x + Separator)[1..] == x[1..] + Separator;
      TrimStartBeforeSeparator(x[1..]);
    }
  }

  /** `trim` at the end stops at the comma of a trailing separator. */
  lemma TrimEndAtSeparator(t: string)
    ensures TrimEnd(t + Separator) == t + ","
  {
    var u := t + Separator;
    assert IsJsWhitespace(u[|u| - 1]);
    assert u[..|u| - 1] == t + ",";
    assert !IsJsWhitespace((t + ",")[|t|]);
  }

  /** Finalising the accumulator gives the joined values with their leading
      whitespace removed: the trailing ", " is removed exactly, and nothing
      else at the end. */
  lemma FinaliseTerminated(values: seq<string>)
    ensures Finalise(Terminated(values)) == TrimStart(Join(values))
  {
    if |values| > 0 {
      var j := Join(values);
      TerminatedIsJoinThenSeparator(values);
      TrimStartBeforeSeparator(j);
      var t := TrimStart(j);
      TrimStartSpec(j);
      assert StartsClean(t + Separator);
      assert TrimStart(t + Separator) == t + Separator;
      TrimEndAtSeparator(t);
      assert Trim(Terminated(values)) == t + ",";
      assert (t + ",")[..|t|] == t;
    }
  }

  /** The finalised accumulator is exactly the joined values if and only if
      the join does not begin with whitespace. */
  lemma FinaliseIsJoinIff(values: seq<string>)
    ensures Finalise(Terminated(values)) == Join(values) <==> StartsClean(Join(values))
  {
    FinaliseTerminated(values);
    TrimStartSpec(Join(values));
  }

  /** The join begins where the first value begins; when the first value is
      empty it begins with the comma or is empty. */
  lemma {:induction false} JoinStart(values: seq<string>)
    requires |values| > 0
    ensures StartsClean(Join(values)) <==> StartsClean(values[0])
  {
    if |values| > 1 {
      assert Join(values) == values[0] + (Separator + Join(values[1..]));
      if |values[0]| > 0 {
        assert Join(values)[0] == values[0][0];
      } else {
        assert Join(values)[0] == ',';
      }
    }
  }

  /** When the first value does not begin with whitespace, a finalised
      accumulator is the plain ", "-join of the values. */
  lemma FinaliseIsJoin(values: seq<string>)
    requires |values| == 0 || StartsClean(values[0])
    ensures Finalise(Terminated(values)) == Join(values)
  {
    if |values| > 0 {
      JoinStart(values);
    }
    FinaliseIsJoinIff(values);
  }
}
