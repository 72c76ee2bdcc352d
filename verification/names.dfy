/** Which containers the daemon manages: names matching `^mc[0-9]+$` under
    Python's `re.match`, where `$` also matches just before a final newline. */
module Names {

  /** `[0-9]`: an ASCII digit only. */
  predicate IsDigit(c: char)
  {
    '0' <= c <= '9'
  }

  predicate AllDigits(s: string)
  {
    forall i :: 0 <= i < |s| ==> IsDigit(s[i])
  }

  /** The digits part of a candidate name: what follows `mc`, without one
      final newline. */
  function DigitsPart(name: string): (r: string)
    requires |name| >= 2
  {
    if name[|name| - 1] == '\n' && |name| >= 3 then name[2..|name| - 1] else name[2..]
  }

  /** The naming convention of managed containers: `mc`, then one or more
      ASCII digits, then optionally one newline. */
  function IsManaged(name: string): (r: bool)
    ensures r ==> |name| >= 3 && IsDigit(name[2])
    ensures r ==> |name| >= 3 && (name == "mc" + DigitsPart(name) || name == "mc" + DigitsPart(name) + "\n")
  {
    |name| >= 3 && name[..2] == "mc" && |DigitsPart(name)| >= 1 && AllDigits(DigitsPart(name))
  }

  // The automaton of the regular expression, read left to right.

  datatype MatchState = Begin | SeenM | SeenMC | InDigits | AtEnd | Dead

  function Delta(q: MatchState, c: char): (r: MatchState)
  {
    match q
    case Begin => if c == 'm' then SeenM else Dead
    case SeenM => if c == 'c' then SeenMC else Dead
    case SeenMC => if IsDigit(c) then InDigits else Dead
    case InDigits => if IsDigit(c) then InDigits else if c == '\n' then AtEnd else Dead
    case AtEnd => Dead
    case Dead => Dead
  }

  function RunAutomaton(q: MatchState, s: string): (r: MatchState)
    decreases |s|
  {
    if |s| == 0 then q else RunAutomaton(Delta(q, s[0]), s[1..])
  }

  /** `$` is satisfied at the end of the input, or before a final newline. */
  predicate Accepting(q: MatchState)
  {
    q == InDigits || q == AtEnd
  }

  lemma {:induction false} RunDead(s: string)
    ensures RunAutomaton(Dead, s) == Dead
    decreases |s|
  {
    if |s| > 0 {
      RunDead(s[1..]);
    }
  }

  lemma AllDigitsConcat(a: string, b: string)
    ensures AllDigits(a + b) <==> AllDigits(a) && AllDigits(b)
  {
    if AllDigits(a) && AllDigits(b) {
      forall i | 0 <= i < |a + b| ensures IsDigit((a + b)[i]) {
        if i < |a| { assert (a + b)[i] == a[i]; } else { assert (a + b)[i] == b[i - |a|]; }
      }
    }
    if AllDigits(a + b) {
      forall i | 0 <= i < |a| ensures IsDigit(a[i]) { assert (a + b)[i] == a[i]; }
      forall i | 0 <= i < |b| ensures IsDigit(b[i]) { assert (a + b)[|a| + i] == b[i]; }
    }
  }

  /** Digits, then one newline, then the end. */
  predicate DigitsThenNewline(s: string)
  {
    |s| > 0 && s[|s| - 1] == '\n' && AllDigits(s[..|s| - 1])
  }

  /** From inside the digits, the automaton stays there on digits, moves to
      the end on one final newline, and dies on anything else. */
  lemma {:induction false} RunFromDigits(s: string)
    ensures RunAutomaton(InDigits, s) ==
      if AllDigits(s) then InDigits
      else if DigitsThenNewline(s) then AtEnd
      else Dead
    decreases |s|
  {
    if |s| > 0 {
      var c, rest := s[0], s[1..];
      assert s == [c] + rest;
      AllDigitsConcat([c], rest);
      if IsDigit(c) {
        RunFromDigits(rest);
        if |rest| > 0 {
          assert s[..|s| - 1] == [c] + rest[..|rest| - 1];
          AllDigitsConcat([c], rest[..|rest| - 1]);
        }
      } else {
        if c == '\n' && |rest| == 0 {
          assert s[..|s| - 1] == [];
        } else {
          if c == '\n' { RunDead(rest[1..]); } else { RunDead(rest); }
          if |s| > 1 {
            assert s[..|s| - 1] == [c] + s[1..|s| - 1];
            AllDigitsConcat([c], s[1..|s| - 1]);
          }
        }
      }
    }
  }

  /** The naming convention is exactly the language of `^mc[0-9]+$`. */
  lemma ManagedIffPatternMatches(name: string)
    ensures IsManaged(name) <==> Accepting(RunAutomaton(Begin, name))
  {
    if |name| == 0 {
    } else if name[0] != 'm' {
      RunDead(name[1..]);
    } else if |name| == 1 {
    } else if name[1] != 'c' {
      RunDead(name[2..]);
    } else if |name| == 2 {
      assert RunAutomaton(Begin, name) == RunAutomaton(SeenMC, name[1..][1..]);
      assert name[1..][1..] == [];
    } else {
      assert name[..2] == "mc";
      assert RunAutomaton(Begin, name) == RunAutomaton(SeenMC, name[2..]) by {
        assert name[1..][0] == 'c' && name[1..][1..] == name[2..];
      }
      ManagedFromDigits(name);
    }
  }

  /** Past the `mc` prefix, the naming convention is the language the
      automaton accepts from the state after `mc`. */
  lemma ManagedFromDigits(name: string)
    requires |name| >= 3 && name[..2] == "mc"
    ensures IsManaged(name) <==> Accepting(RunAutomaton(SeenMC, name[2..]))
  {
    var tail := name[2..];
    assert DigitsPart(name) == if DigitsThenNewline(tail) || (tail[|tail| - 1] == '\n') then tail[..|tail| - 1] else tail by {
      assert name[|name| - 1] == tail[|tail| - 1];
      assert name[2..|name| - 1] == tail[..|tail| - 1];
    }
    var c, rest := tail[0], tail[1..];
    assert tail == [c] + rest;
    AllDigitsConcat([c], rest);
    if |tail| > 1 {
      assert tail[..|tail| - 1] == [c] + rest[..|rest| - 1];
      AllDigitsConcat([c], rest[..|rest| - 1]);
    }
    if IsDigit(c) {
      RunFromDigits(rest);
    } else {
      RunDead(rest);
      if |tail| > 1 {
        assert !AllDigits(tail[..|tail| - 1]);
      }
    }
  }

  /** A managed name never contains a space. */
  lemma ManagedHasNoSpace(name: string)
    requires IsManaged(name)
    ensures ' ' !in name
  {
    var d := DigitsPart(name);
    assert name == "mc" + d || name == "mc" + d + "\n";
    assert ' ' !in d by {
      forall i | 0 <= i < |d| ensures d[i] != ' ' {
        assert IsDigit(d[i]);
      }
    }
  }

  /** The classification examples of the naming convention. */
  lemma ClassificationExamples()
    ensures IsManaged("mc1") && IsManaged("mc42")
    ensures !IsManaged("mc") && !IsManaged("web1") && !IsManaged("mc12x")
  {
    assert DigitsPart("mc42") == "42";
    assert "web1"[1] == 'e';
    assert DigitsPart("mc12x") == "12x";
    assert !IsDigit("12x"[2]);
  }
}
