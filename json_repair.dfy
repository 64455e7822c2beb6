/** Repair of a JSON text cut off by a length limit: one left-to-right scan
    tracks the closers still expected and whether the scan is inside a
    string literal or just after a backslash; the repair then appends a
    closing quote when needed and the expected closers, innermost first. */
module JsonRepair {

  /** The scanner's state after a prefix: the closers expected, the most
      recently opened last; whether inside a string; whether the next
      character is skipped because it follows a backslash. */
  datatype ScanState = ScanState(stack: seq<char>, inString: bool, escaped: bool)

  const Start: ScanState := ScanState([], false, false)

  /** The state after a complete text: nothing open, not inside a string and
      no backslash pending. */
  predicate Closed(st: ScanState) {
    st == Start
  }

  /** One iteration of the scan loop. The backslash test comes before the
      string test, so a backslash escapes the next character outside strings
      too. A closer that does not match the innermost opener is ignored. */
  function Step(st: ScanState, c: char): ScanState {
    if st.escaped then st.(escaped := false)
    else if c == '\\' then st.(escaped := true)
    else if c == '"' then st.(inString := !st.inString)
    else if st.inString then st
    else if c == '{' then st.(stack := st.stack + ['}'])
    else if c == '[' then st.(stack := st.stack + [']'])
    else if (c == '}' || c == ']') && |st.stack| > 0 && st.stack[|st.stack| - 1] == c then
      st.(stack := st.stack[..|st.stack| - 1])
    else st
  }

  /** The scan of `s` started in state `st`. */
  function Run(st: ScanState, s: string): ScanState
    decreases |s|
  {
    if s == [] then st else Step(Run(st, s[..|s| - 1]), s[|s| - 1])
  }

  function Scan(s: string): ScanState {
    Run(Start, s)
  }

  /** The stack popped to the end, top first. */
  function Reverse(s: seq<char>): (r: seq<char>)
    ensures |r| == |s|
    ensures forall i :: 0 <= i < |s| ==> r[i] == s[|s| - 1 - i]
    decreases |s|
  {
    if s == [] then [] else [s[|s| - 1]] + Reverse(s[..|s| - 1])
  }

  /** What the repair appends after a scan that ended in `st`: a quote when
      inside a string, then the expected closers, innermost first. */
  function Closing(st: ScanState): string {
    (if st.inString then "\"" else "") + Reverse(st.stack)
  }

  /** `repairTruncatedJson` as a function of its input. */
  function Repair(s: string): (r: string)
    ensures s <= r
  {
    if s == "" then "" else s + Closing(Scan(s))
  }

  /** `repairTruncatedJson`: the scan loop over the input updating the stack
      and the two flags, then the appending of the quote and of the closers
      popped off the stack. */
  method RepairTruncatedJson(jsonStr: string) returns (result: string)
    ensures result == Repair(jsonStr)
  {
    if jsonStr == "" {
      return "";
    }
    var stack: seq<char> := [];
    var inString := false;
    var escaped := false;
    result := jsonStr;
    for i := 0 to |jsonStr|
      invariant ScanState(stack, inString, escaped) == Scan(jsonStr[..i])
    {
      var c := jsonStr[i];
      assert jsonStr[..i + 1][..i] == jsonStr[..i];
      if escaped {
        escaped := false;
        continue;
      }
      if c == '\\' {
        escaped := true;
        continue;
      }
      if c == '"' {
        inString := !inString;
        continue;
      }
      if !inString {
        if c == '{' {
          stack := stack + ['}'];
        } else if c == '[' {
          stack := stack + [']'];
        } else if c == '}' {
          if |stack| > 0 && stack[|stack| - 1] == '}' {
            stack := stack[..|stack| - 1];
          }
        } else if c == ']' {
          if |stack| > 0 && stack[|stack| - 1] == ']' {
            stack := stack[..|stack| - 1];
          }
        }
      }
    }
    assert jsonStr[..|jsonStr|] == jsonStr;
    if inString {
      result := result + "\"";
    }
    while |stack| > 0
      invariant result + Reverse(stack) == Repair(jsonStr)
      decreases |stack|
    {
      result := result + [stack[|stack| - 1]];
      stack := stack[..|stack| - 1];
    }
  }

  // ---------------------------------------------------------------------------
  // Properties of the scan

  /** Scanning two pieces one after the other is scanning them together. */
  lemma {:induction false} RunAppend(st: ScanState, a: string, b: string)
    ensures Run(st, a + b) == Run(Run(st, a), b)
    decreases |b|
  {
    if b == [] {
      assert a + b == a;
    } else {
      assert (a + b)[..|a + b| - 1] == a + b[..|b| - 1];
      assert (a + b)[|a + b| - 1] == b[|b| - 1];
      RunAppend(st, a, b[..|b| - 1]);
    }
  }

  /** Scanning a text and then one more character. */
  lemma ScanSnoc(s: string, c: char)
    ensures Scan(s + [c]) == Step(Scan(s), c)
  {
    assert (s + [c])[..|s|] == s;
  }

  /** Scanning one character and then the rest. */
  lemma RunCons(st: ScanState, c: char, s: string)
    ensures Run(st, [c] + s) == Run(Step(st, c), s)
  {
    RunAppend(st, [c], s);
    assert [c][..0] == [];
  }

  /** The stack only ever holds closers. */
  predicate OnlyClosers(stack: seq<char>) {
    forall i :: 0 <= i < |stack| ==> stack[i] == '}' || stack[i] == ']'
  }

  lemma {:induction false} ScanStackHoldsClosers(s: string)
    ensures OnlyClosers(Scan(s).stack)
    decreases |s|
  {
    if s != [] {
      ScanStackHoldsClosers(s[..|s| - 1]);
    }
  }

  /** Appending the expected closers, innermost first, to a scan outside a
      string pops the whole stack: the closers come in the reverse of the
      order their openers were pushed. */
  lemma {:induction false} ClosersEmptyTheStack(stack: seq<char>)
    requires OnlyClosers(stack)
    ensures Run(ScanState(stack, false, false), Reverse(stack)) == Start
    decreases |stack|
  {
    if stack != [] {
      var top := stack[|stack| - 1];
      var rest := stack[..|stack| - 1];
      RunCons(ScanState(stack, false, false), top, Reverse(rest));
      assert Step(ScanState(stack, false, false), top) == ScanState(rest, false, false);
      ClosersEmptyTheStack(rest);
    }
  }

  /** The appended text closes every string and every opener the scan left
      open, provided the scan did not end just after a backslash. */
  lemma ClosingCloses(st: ScanState)
    requires !st.escaped && OnlyClosers(st.stack)
    ensures Closed(Run(st, Closing(st)))
  {
    var open := ScanState(st.stack, false, false);
    if st.inString {
      RunCons(st, '"', Reverse(st.stack));
      assert Step(st, '"') == open;
    } else {
      assert "" + Reverse(st.stack) == Reverse(st.stack);
    }
    ClosersEmptyTheStack(st.stack);
  }

  // ---------------------------------------------------------------------------
  // Properties of the repair

  /** The input is kept as it stands and only a suffix is appended: at most
      one quote, then one closer per opener still open. */
  lemma RepairAppends(s: string)
    ensures s <= Repair(s)
    ensures s != "" ==>
      |Repair(s)| == |s| + (if Scan(s).inString then 1 else 0) + |Scan(s).stack|
    ensures forall i :: |s| <= i < |Repair(s)| ==>
      Repair(s)[i] == '"' || Repair(s)[i] == '}' || Repair(s)[i] == ']'
  {
    ScanStackHoldsClosers(s);
  }

  /** Unless the input ends in a dangling backslash, its repair is complete:
      rescanning it leaves nothing open. */
  lemma RepairCloses(s: string)
    requires !Scan(s).escaped
    ensures Closed(Scan(Repair(s)))
  {
    if s != "" {
      ScanStackHoldsClosers(s);
      RunAppend(Start, s, Closing(Scan(s)));
      ClosingCloses(Scan(s));
    }
  }

  /** A text that leaves nothing open and does not end inside a string is
      returned unchanged, even when it ends in a dangling backslash. */
  lemma CompleteUnchanged(s: string)
    requires Scan(s).stack == [] && !Scan(s).inString
    ensures Repair(s) == s
  {
  }

  /** Unless the input ends in a dangling backslash, repairing twice is
      repairing once. */
  lemma RepairIdempotent(s: string)
    requires !Scan(s).escaped
    ensures Repair(Repair(s)) == Repair(s)
  {
    RepairCloses(s);
    CompleteUnchanged(Repair(s));
  }

  /** The scan of three characters, one at a time. */
  lemma Scan3(a: char, b: char, c: char)
    ensures Scan([a, b, c]) == Step(Step(Step(Start, a), b), c)
  {
    ScanSnoc([], a);
    assert [] + [a] == [a];
    ScanSnoc([a], b);
    assert [a] + [b] == [a, b];
    ScanSnoc([a, b], c);
    assert [a, b] + [c] == [a, b, c];
  }

  /** Brackets inside a string literal leave the stack alone: `{"]"` still
      expects one `}`. */
  lemma BracketsInStringIgnored()
    ensures Scan("{\"]\"") == ScanState(['}'], false, false)
  {
    Scan3('{', '"', ']');
    ScanSnoc("{\"]", '"');
    assert "{\"]" + ['"'] == "{\"]\"";
  }

  /** A backslash skips the next character outside a string too: in `[\[`
      the second bracket is not pushed. */
  lemma EscapeOutsideString()
    ensures Scan("[\\[") == ScanState([']'], false, false)
  {
    Scan3('[', '\\', '[');
  }

  /** A closer that does not match the innermost opener is left in place and
      pops nothing: `{]` gives `{]}`. */
  lemma MismatchedCloserKept()
    ensures Repair("{]") == "{]}"
  {
    var s := "{]";
    ScanSnoc([], '{');
    assert [] + ['{'] == ['{'];
    ScanSnoc(['{'], ']');
    assert ['{'] + [']'] == s;
    assert Scan(s) == ScanState(['}'], false, false);
    assert Reverse(['}']) == ['}'];
  }

  /** `["b` leaves an array and a string open. */
  lemma TruncatedStringScan()
    ensures Scan("[\"b") == ScanState([']'], true, false)
  {
    Scan3('[', '"', 'b');
    assert "[\"b" == ['[', '"', 'b'];
  }

  /** What is appended after `["b`. */
  lemma InStringClosing()
    ensures Closing(ScanState([']'], true, false)) == "\"]"
  {
    assert Reverse([']']) == [']'];
  }

  /** Cut inside a string in an array: `["b` becomes `["b"]`. */
  lemma TruncatedStringExample()
    ensures Repair("[\"b") == "[\"b\"]"
  {
    TruncatedStringScan();
    InStringClosing();
  }

  // ---------------------------------------------------------------------------
  // A dangling backslash

  /** The source appends the quote after a dangling backslash, which then
      escapes it: `["\` becomes `["\"]`, whose quote and closer lie inside a
      string that is still open, so the repair is incomplete and a second
      repair changes it again. */
  lemma DanglingEscapeLeftOpen()
    ensures Repair("[\"\\") == "[\"\\\"]"
    ensures Scan(Repair("[\"\\")) == ScanState([']'], true, false)
    ensures Repair(Repair("[\"\\")) != Repair("[\"\\")
  {
    var s := "[\"\\";
    var r := "[\"\\\"]";
    DanglingScan();
    assert Closing(ScanState([']'], true, true)) == "\"]" by {
      assert Reverse([']']) == [']'];
    }
    assert s + "\"]" == r;
    DanglingRescan();
    assert Closing(ScanState([']'], true, false)) == "\"]" by {
      assert Reverse([']']) == [']'];
    }
    assert |Repair(r)| == |r| + 2;
  }

  /** `["\` ends inside a string with a backslash pending. */
  lemma DanglingScan()
    ensures Scan("[\"\\") == ScanState([']'], true, true)
  {
    Scan3('[', '"', '\\');
    assert "[\"\\" == ['[', '"', '\\'];
  }

  /** `["\"]` ends inside a string: its last quote was escaped. */
  lemma DanglingRescan()
    ensures Scan("[\"\\\"]") == ScanState([']'], true, false)
  {
    var s := "[\"\\";
    var t := s + ['"'];
    DanglingScan();
    ScanSnoc(s, '"');
    assert Scan(t) == ScanState([']'], true, false);
    ScanSnoc(t, ']');
    assert t + [']'] == "[\"\\\"]";
  }

  /** `[\` ends outside any string with a backslash pending. */
  lemma OutsideDanglingScan()
    ensures Scan("[\\") == ScanState([']'], false, true)
  {
    ScanSnoc("[", '\\');
    assert "[" + ['\\'] == "[\\";
    assert Scan("[") == Step(Start, '[') by {
      ScanSnoc([], '[');
      assert [] + ['['] == "[";
    }
  }

  /** Outside a string the same happens: `[\` is repaired to `[\]`, whose
      bracket the pending escape swallows, so the output still expects a
      `]`. */
  lemma DanglingEscapeOutsideString()
    ensures Repair("[\\") == "[\\]"
    ensures Scan("[\\]") == ScanState([']'], false, false)
  {
    OutsideDanglingScan();
    assert Reverse([']']) == [']'];
    assert Closing(ScanState([']'], false, true)) == "]";
    ScanSnoc("[\\", ']');
    assert "[\\" + [']'] == "[\\]";
  }

  /** `{}\` leaves nothing open, with a backslash pending. */
  lemma ClosedDanglingScan()
    ensures Scan("{}\\") == ScanState([], false, true)
  {
    Scan3('{', '}', '\\');
    assert "{}\\" == ['{', '}', '\\'];
  }

  /** The repair as intended: after a dangling backslash, a second backslash
      is appended first, so that the escape is completed and the quote and
      closers that follow count. */
  function RepairClosed(s: string): string {
    if s == "" then ""
    else
      var st := Scan(s);
      s + (if st.escaped then "\\" else "") + Closing(st.(escaped := false))
  }

  /** The backslash the intended repair appends first completes a pending
      escape and changes nothing else. */
  lemma PaddedScan(s: string)
    ensures Scan(s + (if Scan(s).escaped then "\\" else "")) == Scan(s).(escaped := false)
  {
    if Scan(s).escaped {
      ScanSnoc(s, '\\');
      assert "\\" == ['\\'];
    } else {
      assert s + "" == s;
    }
  }

  /** The intended repair is complete for every input, keeps the input as a
      prefix, and agrees with the source when there is no dangling
      backslash. */
  lemma RepairClosedCloses(s: string)
    ensures Closed(Scan(RepairClosed(s)))
    ensures s <= RepairClosed(s)
    ensures !Scan(s).escaped ==> RepairClosed(s) == Repair(s)
  {
    if s != "" {
      var st := Scan(s);
      var mid := st.(escaped := false);
      var pad: string := if st.escaped then "\\" else "";
      ScanStackHoldsClosers(s);
      PaddedScan(s);
      assert RepairClosed(s) == (s + pad) + Closing(mid);
      RunAppend(Start, s + pad, Closing(mid));
      ClosingCloses(mid);
      if !st.escaped {
        assert s + pad == s;
      }
    }
  }

  /** The price of the correction: `{}\`, which the source returns
      unchanged, gets a second backslash. */
  lemma CorrectionExtendsClosedInput()
    ensures Repair("{}\\") == "{}\\"
    ensures RepairClosed("{}\\") == "{}\\\\"
  {
    ClosedDanglingScan();
    assert Reverse([]) == [];
    assert "{}\\" + "\\" == "{}\\\\";
  }

  /** Repairing the intended repair again changes nothing. */
  lemma RepairClosedIdempotent(s: string)
    ensures RepairClosed(RepairClosed(s)) == RepairClosed(s)
  {
    RepairClosedCloses(s);
    var r := RepairClosed(s);
    if r != "" {
      assert Scan(r) == Start;
      assert Closing(Start) == "";
    }
  }
}
