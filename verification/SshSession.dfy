/** What a fallback SSH session is taken to have done, from what it printed. */
module SshSession {
  import opened Wrappers
  import opened Volumes

  const EXIT_MARKER := "PVE_CLEANUP_SSH_EXIT="

  /** How `pexpect` saw it end: timed out or not, what was printed, and the client's own exit status. */
  datatype Session = Session(timedOut: bool, output: string, exit: Option<int>)

  function LeadingDigits(s: string): string {
    if s != "" && IsDigit(s[0]) then [s[0]] + LeadingDigits(s[1..]) else ""
  }

  /** The number behind the last marker that has one: `int(re.findall(...)[-1])`. */
  function LastCode(out: string): Option<int> {
    if |out| < |EXIT_MARKER| then None
    else
      var later := LastCode(out[1..]);
      if later.Some? then later
      else if out[..|EXIT_MARKER|] == EXIT_MARKER then Digits(LeadingDigits(out[|EXIT_MARKER|..]), 0)
      else None
  }

  /** The error `_remove_volume_via_ssh` returns; the empty string is success. */
  function SessionError(s: Session): string {
    if s.timedOut then "ssh timed out"
    else
      match LastCode(s.output)
      case Some(code) => if code == 0 then "" else "pvesm free exited with an error"
      case None => if s.exit.Some? && s.exit.value != 0 then "ssh failed" else "ssh returned no remote exit status"
  }

  method ReadSession(s: Session) returns (error: string)
    ensures error == SessionError(s)
  {
    if s.timedOut {
      return "ssh timed out";
    }
    var code := LastCode(s.output);
    if code.Some? {
      return if code.value == 0 then "" else "pvesm free exited with an error";
    }
    if s.exit.Some? && s.exit.value != 0 {
      return "ssh failed";
    }
    return "ssh returned no remote exit status";
  }

  // ----- The code the remote shell printed is the one that counts -----

  lemma {:induction false} DigitsLead(digits: string, tail: string)
    requires (forall c | c in digits :: IsDigit(c)) && (tail == "" || !IsDigit(tail[0]))
    ensures LeadingDigits(digits + tail) == digits
  {
    if digits == "" {
      assert digits + tail == tail;
    } else {
      assert digits[0] in digits && forall c | c in digits[1..] :: c in digits;
      assert (digits + tail)[1..] == digits[1..] + tail;
      DigitsLead(digits[1..], tail);
    }
  }

  lemma {:induction false} NoMarkerInDigits(digits: string, tail: string)
    requires (forall c | c in digits :: IsDigit(c)) && LastCode(tail).None?
    ensures LastCode(digits + tail).None?
  {
    if digits == "" {
      assert digits + tail == tail;
    } else {
      assert digits[0] in digits && forall c | c in digits[1..] :: c in digits;
      assert (digits + tail)[1..] == digits[1..] + tail;
      NoMarkerInDigits(digits[1..], tail);
      assert (digits + tail)[0] != EXIT_MARKER[0];
    }
  }

  lemma NotThere(text: string, k: nat, rest: string)
    requires 1 <= k < |EXIT_MARKER| <= |text| && text == EXIT_MARKER[k..] + rest
    requires EXIT_MARKER[k] != EXIT_MARKER[0] || (k + 1 < |EXIT_MARKER| && EXIT_MARKER[k + 1] != EXIT_MARKER[1])
    ensures text[..|EXIT_MARKER|] != EXIT_MARKER
  {
    assert text[..|EXIT_MARKER|][0] == EXIT_MARKER[k];
    assert k + 1 < |EXIT_MARKER| ==> text[..|EXIT_MARKER|][1] == EXIT_MARKER[k + 1];
  }

  lemma MarkerOnce(k: nat)
    requires 1 <= k < |EXIT_MARKER|
    ensures EXIT_MARKER[k] != EXIT_MARKER[0] || (k + 1 < |EXIT_MARKER| && EXIT_MARKER[k + 1] != EXIT_MARKER[1])
  {
  }

  /** No marker begins inside the marker. */
  lemma {:induction false} NoMarkerInMarker(k: nat, rest: string)
    requires 1 <= k <= |EXIT_MARKER| && LastCode(rest).None?
    ensures LastCode(EXIT_MARKER[k..] + rest).None?
    decreases |EXIT_MARKER| - k
  {
    var text := EXIT_MARKER[k..] + rest;
    if k == |EXIT_MARKER| {
      assert text == rest;
    } else {
      NoMarkerInMarker(k + 1, rest);
      assert text[1..] == EXIT_MARKER[k + 1..] + rest;
      MarkerOnce(k);
      if |text| >= |EXIT_MARKER| {
        NotThere(text, k, rest);
      }
    }
  }

  lemma {:induction false} CodeStays(said: string, text: string)
    requires LastCode(text).Some?
    ensures LastCode(said + text) == LastCode(text)
  {
    if said == "" {
      assert said + text == text;
    } else {
      assert (said + text)[1..] == said[1..] + text;
      CodeStays(said[1..], text);
    }
  }

  /** Whatever was printed before - other markers included - and whatever follows without a marker, the code read
      is the one the remote shell printed. */
  lemma LastCodeIsRead(said: string, code: nat, tail: string)
    requires (tail == "" || !IsDigit(tail[0])) && LastCode(tail).None?
    ensures LastCode(said + (EXIT_MARKER + (Decimal(code) + tail))) == Some(code)
  {
    var rest := Decimal(code) + tail;
    var text := EXIT_MARKER + rest;
    NoMarkerInDigits(Decimal(code), tail);
    NoMarkerInMarker(1, rest);
    assert text[1..] == EXIT_MARKER[1..] + rest;
    assert text[..|EXIT_MARKER|] == EXIT_MARKER && text[|EXIT_MARKER|..] == rest;
    DigitsLead(Decimal(code), tail);
    DigitsOfDecimal(code);
    CodeStays(said, text);
  }

  /** A marker with a digit behind it. */
  ghost predicate CodeAt(out: string, i: int) {
    && 0 <= i < |out| - 21 && out[i..i + 21] == "PVE_CLEANUP_SSH_EXIT=" && '0' <= out[i + 21] <= '9'
  }

  ghost predicate LastCodeAt(out: string, i: int) {
    CodeAt(out, i) && forall j | i < j :: !CodeAt(out, j)
  }

  /** The remote command was seen to end with this code. */
  ghost predicate Printed(out: string, code: int) {
    exists i :: LastCodeAt(out, i) && Digits(LeadingDigits(out[i + 21..]), 0) == Some(code)
  }

  lemma CodeShift(out: string, i: int)
    requires out != ""
    ensures CodeAt(out[1..], i) <==> i >= 0 && CodeAt(out, i + 1)
    ensures LastCodeAt(out[1..], i) <==> i >= 0 && LastCodeAt(out, i + 1)
  {
    forall j ensures CodeAt(out[1..], j) <==> j >= 0 && CodeAt(out, j + 1) {
      if 0 <= j < |out| - 22 {
        assert out[1..][j..j + 21] == out[j + 1..j + 22];
      }
    }
    if LastCodeAt(out[1..], i) {
      forall j | i + 1 < j ensures !CodeAt(out, j) {
        assert !CodeAt(out[1..], j - 1);
      }
    }
  }

  lemma {:induction false} DigitsParse(s: string, acc: nat)
    requires s != "" && IsDigit(s[0])
    ensures Digits(LeadingDigits(s), acc).Some?
  {
    var rest := s[1..];
    assert LeadingDigits(s) == [s[0]] + LeadingDigits(rest);
    if rest != "" && IsDigit(rest[0]) {
      DigitsParse(rest, acc * 10 + (s[0] - '0') as nat);
      assert LeadingDigits(s)[1..] == LeadingDigits(rest);
    }
  }

  /** The code that is read is the one behind the last marker with a digit, and none is read if there is none. */
  lemma {:induction false} LastCodeIff(out: string)
    ensures LastCode(out).None? <==> forall i :: !CodeAt(out, i)
    ensures forall code :: LastCode(out) == Some(code) <==> Printed(out, code)
  {
    if |out| >= 21 {
      LastCodeIff(out[1..]);
      forall i { CodeShift(out, i); }
      if forall i :: !CodeAt(out[1..], i) {
        assert forall i | i >= 1 :: CodeAt(out[1..], i - 1) <==> CodeAt(out, i);
        assert out[0..21] == out[..21];
        if CodeAt(out, 0) {
          DigitsParse(out[21..], 0);
        }
        forall code ensures LastCode(out) == Some(code) <==> Printed(out, code) {
          if CodeAt(out, 0) {
            assert LastCodeAt(out, 0);
          }
        }
      } else {
        var i :| CodeAt(out[1..], i);
        assert CodeAt(out, i + 1);
        forall code ensures Printed(out[1..], code) <==> Printed(out, code) {
          PrintedShift(out, code);
        }
      }
    }
  }

  lemma PrintedShift(out: string, code: int)
    requires out != "" && exists i :: CodeAt(out[1..], i)
    ensures Printed(out[1..], code) <==> Printed(out, code)
  {
    forall i { CodeShift(out, i); }
    if i :| LastCodeAt(out[1..], i) && Digits(LeadingDigits(out[1..][i + 21..]), 0) == Some(code) {
      assert out[1..][i + 21..] == out[i + 22..];
      assert LastCodeAt(out, i + 1);
    }
    if i :| LastCodeAt(out, i) && Digits(LeadingDigits(out[i + 21..]), 0) == Some(code) {
      var h :| CodeAt(out[1..], h);
      assert CodeAt(out, h + 1);
      assert i >= 1 && LastCodeAt(out[1..], i - 1);
      assert out[1..][i - 1 + 21..] == out[i + 21..];
    }
  }

  /** The session says that the volume was freed: it ran to its end, and the last code printed is zero. */
  ghost predicate SaysFreed(s: Session) {
    !s.timedOut && Printed(s.output, 0)
  }

  /** It counts as success exactly then. */
  lemma SuccessIff(s: Session)
    ensures SessionError(s) == "" <==> SaysFreed(s)
  {
    LastCodeIff(s.output);
  }

  /** So a session counts as success exactly if it did not time out and the remote command exited with zero,
      whatever the SSH client's own exit status. */
  lemma SessionSucceedsIff(s: Session, said: string, code: nat, tail: string)
    requires (tail == "" || !IsDigit(tail[0])) && LastCode(tail).None?
    requires s.output == said + (EXIT_MARKER + (Decimal(code) + tail))
    ensures SessionError(s) == "" <==> !s.timedOut && code == 0
  {
    LastCodeIsRead(said, code, tail);
  }
}
