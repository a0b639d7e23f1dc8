/** Volume names: whose volume is it? */
module Volumes {
  import opened Wrappers

  /** A storage content entry: its volume id and the owner PVE reports, if any. */
  datatype Content = Content(volid: string, vmid: Option<int>)

  /** `volid.split(":", 1)[-1]`. */
  function AfterColon(volid: string): string {
    if ':' !in volid then volid
    else if volid[0] == ':' then volid[1..]
    else AfterColon(volid[1..])
  }

  predicate StartsWith(s: string, prefix: string) {
    |prefix| <= |s| && s[..|prefix|] == prefix
  }

  /** Text up to the first `c`. */
  function UpTo(s: string, c: char): string {
    if s == "" || s[0] == c then "" else [s[0]] + UpTo(s[1..], c)
  }

  // ----- Python's int() on ASCII text -----

  predicate IsSpace(c: char) {
    c == ' ' || '\t' <= c <= '\r' || '\U{1c}' <= c <= '\U{1f}'
  }

  predicate IsDigit(c: char) {
    '0' <= c <= '9'
  }

  function StripLeft(s: string): string {
    if s != "" && IsSpace(s[0]) then StripLeft(s[1..]) else s
  }

  function StripRight(s: string): string {
    if s != "" && IsSpace(s[|s| - 1]) then StripRight(s[..|s| - 1]) else s
  }

  /** Digits with single underscores between them, read from the left onto `acc`. */
  function Digits(s: string, acc: nat): Option<int>
    decreases |s|
  {
    if s == "" || !IsDigit(s[0]) then None
    else
      var n := acc * 10 + (s[0] - '0') as nat;
      if |s| == 1 then Some(n)
      else if s[1] == '_' then Digits(s[2..], n)
      else Digits(s[1..], n)
  }

  function ParseInt(text: string): Option<int> {
    var s := StripRight(StripLeft(text));
    if s != "" && s[0] == '-' then
      (match Digits(s[1..], 0) case Some(n) => Some(-n) case None => None)
    else Digits(if s != "" && s[0] == '+' then s[1..] else s, 0)
  }

  /** The decimal text of a number. */
  function Decimal(n: nat): (s: string)
    ensures s != "" && forall c | c in s :: IsDigit(c)
  {
    var last := ['0' + (n % 10) as char];
    if n < 10 then last else Decimal(n / 10) + last
  }

  /** The VMID an entry belongs to, if it can be told: PVE's own field, else the name `vm-<id>-...`. */
  function OwnerId(e: Content): Option<int> {
    if e.vmid.Some? then e.vmid
    else
      var volume := AfterColon(e.volid);
      if !StartsWith(volume, "vm-") || volume == "vm-" then None
      else ParseInt(UpTo(volume[3..], '-'))
  }

  // ----- The naming scheme is read correctly -----

  lemma {:induction false} DigitsAppend(a: string, b: string, acc: nat)
    requires a != "" && b != "" && forall c | c in a :: IsDigit(c)
    requires Digits(a, acc).Some? && Digits(a, acc).value >= 0 && b[0] != '_'
    ensures Digits(a + b, acc) == Digits(b, Digits(a, acc).value)
  {
    assert a[0] in a;
    var n := acc * 10 + (a[0] - '0') as nat;
    if |a| == 1 {
      assert (a + b)[1..] == b;
    } else {
      assert a[1] in a;
      assert (a + b)[1..] == a[1..] + b;
      assert forall c | c in a[1..] :: c in a;
      DigitsAppend(a[1..], b, n);
    }
  }

  lemma {:induction false} DigitsOfDecimal(n: nat)
    ensures Digits(Decimal(n), 0) == Some(n)
  {
    if n >= 10 {
      DigitsOfDecimal(n / 10);
      DigitsAppend(Decimal(n / 10), ['0' + (n % 10) as char], 0);
    }
  }

  lemma {:induction false} UpToOf(a: string, c: char, b: string)
    requires c !in a && (b == "" || b[0] == c)
    ensures UpTo(a + b, c) == a
  {
    if a == "" {
      assert a + b == b;
    } else {
      assert (a + b)[1..] == a[1..] + b;
      UpToOf(a[1..], c, b);
    }
  }

  lemma {:induction false} AfterColonOf(datastore: string, volume: string)
    requires ':' !in datastore
    ensures AfterColon(datastore + ":" + volume) == volume
  {
    var volid := datastore + ":" + volume;
    assert volid[|datastore|] == ':';
    if datastore == "" {
      assert volid[1..] == volume;
    } else {
      assert volid[1..] == datastore[1..] + ":" + volume;
      AfterColonOf(datastore[1..], volume);
    }
  }

  lemma ParseDecimal(n: nat)
    ensures ParseInt(Decimal(n)) == Some(n)
  {
    var s := Decimal(n);
    assert s[0] in s && s[|s| - 1] in s;
    DigitsOfDecimal(n);
  }

  /** ASCII white space. */
  ghost predicate AllWhite(s: string) {
    forall c | c in s :: '\t' <= c <= '\r' || '\U{1c}' <= c <= ' '
  }

  lemma {:induction false} LeftStripped(lead: string, s: string)
    requires AllWhite(lead) && s != "" && IsDigit(s[0])
    ensures StripLeft(lead + s) == s
  {
    if lead == "" {
      assert lead + s == s;
    } else {
      assert lead[0] in lead && forall c | c in lead[1..] :: c in lead;
      assert (lead + s)[1..] == lead[1..] + s;
      LeftStripped(lead[1..], s);
    }
  }

  lemma {:induction false} RightStripped(s: string, tail: string)
    requires AllWhite(tail) && s != "" && IsDigit(s[|s| - 1])
    ensures StripRight(s + tail) == s
  {
    if tail == "" {
      assert s + tail == s;
    } else {
      var init := tail[..|tail| - 1];
      assert tail[|tail| - 1] in tail && forall c | c in init :: c in tail;
      assert (s + tail)[..|s + tail| - 1] == s + init;
      RightStripped(s, init);
    }
  }

  /** `int` reads a decimal number with white space around it ... */
  lemma ParsePadded(lead: string, n: nat, tail: string)
    requires AllWhite(lead) && AllWhite(tail)
    ensures ParseInt(lead + (Decimal(n) + tail)) == Some(n)
  {
    var s := Decimal(n);
    assert s[0] in s && s[|s| - 1] in s;
    assert (s + tail)[0] == s[0];
    LeftStripped(lead, s + tail);
    RightStripped(s, tail);
    DigitsOfDecimal(n);
  }

  /** ... or a sign before it. */
  lemma ParseSigned(n: int)
    requires n >= 0
    ensures ParseInt("+" + Decimal(n)) == Some(n)
    ensures ParseInt("-" + Decimal(n)) == Some(-n)
  {
    DigitsOfDecimal(n);
    SignStays("+", n);
    SignStays("-", n);
  }

  lemma SignStays(sign: string, n: nat)
    requires sign == "+" || sign == "-"
    ensures StripRight(StripLeft(sign + Decimal(n))) == sign + Decimal(n)
    ensures (sign + Decimal(n))[1..] == Decimal(n)
  {
    var s := Decimal(n);
    assert s[|s| - 1] in s;
  }

  lemma SchemeVolume(digits: string, rest: string)
    requires '-' !in digits && digits != "" && (rest == "" || rest[0] == '-')
    ensures var volume := "vm-" + digits + rest;
            StartsWith(volume, "vm-") && volume != "vm-" && UpTo(volume[3..], '-') == digits
  {
    var volume := "vm-" + digits + rest;
    assert volume[3..] == digits + rest && volume[..3] == "vm-";
    assert volume[3] == digits[0];
    UpToOf(digits, '-', rest);
  }

  /** A volume without an owner field that is named by PVE's scheme is attributed to the VM in its name. */
  lemma SchemeIsRead(datastore: string, vmid: nat, rest: string)
    requires ':' !in datastore && (rest == "" || rest[0] == '-')
    ensures OwnerId(Content(datastore + ":" + ("vm-" + Decimal(vmid) + rest), None)) == Some(vmid)
  {
    AfterColonOf(datastore, "vm-" + Decimal(vmid) + rest);
    SchemeVolume(Decimal(vmid), rest);
    ParseDecimal(vmid);
  }

  /** The VM an entry of this datastore belongs to: PVE's owner field says so, or there is none and the name does. */
  ghost predicate OwnedBy(e: Content, datastore: string, volume: string, v: int) {
    && e.volid == datastore + ":" + volume
    && if e.vmid.Some? then e.vmid == Some(v)
       else v >= 0 && exists rest :: NamedFor(volume, v, rest)
  }

  ghost predicate NamedFor(volume: string, v: nat, rest: string) {
    volume == "vm-" + Decimal(v) + rest && (rest == "" || rest[0] == '-')
  }

  lemma OwnerIsRead(e: Content, datastore: string, volume: string, v: int)
    requires ':' !in datastore && OwnedBy(e, datastore, volume, v)
    ensures OwnerId(e) == Some(v) && AfterColon(e.volid) == volume && StartsWith(e.volid, datastore + ":")
  {
    AfterColonOf(datastore, volume);
    if e.vmid.None? {
      var rest :| NamedFor(volume, v, rest);
      SchemeIsRead(datastore, v, rest);
    }
  }

  // ----- Other names have no owner -----

  predicate IsNumeral(c: char) {
    '0' <= c <= '9' || '\t' <= c <= '\r' || '\U{1c}' <= c <= ' ' || c == '+' || c == '-' || c == '_'
  }

  lemma {:induction false} DigitsNumeral(s: string, acc: nat)
    requires Digits(s, acc).Some?
    ensures forall c | c in s :: '0' <= c <= '9' || c == '_'
    decreases |s|
  {
    if |s| > 1 {
      if s[1] == '_' {
        DigitsNumeral(s[2..], acc * 10 + (s[0] - '0') as nat);
        assert s == [s[0], s[1]] + s[2..];
      } else {
        DigitsNumeral(s[1..], acc * 10 + (s[0] - '0') as nat);
        assert s == [s[0]] + s[1..];
      }
    }
  }

  lemma {:induction false} StripLeftKeeps(s: string, c: char)
    requires c in s && !IsSpace(c)
    ensures c in StripLeft(s)
  {
    if IsSpace(s[0]) {
      assert s == [s[0]] + s[1..];
      StripLeftKeeps(s[1..], c);
    }
  }

  lemma {:induction false} StripRightKeeps(s: string, c: char)
    requires c in s && !IsSpace(c)
    ensures c in StripRight(s)
  {
    if IsSpace(s[|s| - 1]) {
      assert s == s[..|s| - 1] + [s[|s| - 1]];
      StripRightKeeps(s[..|s| - 1], c);
    }
  }

  lemma {:induction false} UpToKeeps(s: string, end: char, i: nat)
    requires i < |s| && end !in s[..i + 1]
    ensures s[i] in UpTo(s, end)
  {
    assert s[0] == s[..i + 1][0];
    if i > 0 {
      assert s[1..][..i] == s[..i + 1][1..];
      UpToKeeps(s[1..], end, i - 1);
    }
  }

  /** A text with a letter in it, or any other character that no number has, is no number. */
  lemma ParseFails(text: string, c: char)
    requires c in text && !IsNumeral(c)
    ensures ParseInt(text).None?
  {
    StripLeftKeeps(text, c);
    StripRightKeeps(StripLeft(text), c);
    var s := StripRight(StripLeft(text));
    var digits := if s[0] == '-' || s[0] == '+' then s[1..] else s;
    assert s == [s[0]] + s[1..];
    assert c in digits;
    if Digits(digits, 0).Some? {
      DigitsNumeral(digits, 0);
    }
  }

  /** An entry without an owner field whose volume is not named `vm-...`, or has such a character before the next
      dash, has no owner. */
  lemma NoOwner(e: Content, datastore: string, volume: string)
    requires ':' !in datastore && e == Content(datastore + ":" + volume, None)
    requires !("vm-" <= volume) ||
             exists i :: 3 <= i < |volume| && '-' !in volume[3..i + 1] && !IsNumeral(volume[i])
    ensures OwnerId(e).None?
  {
    AfterColonOf(datastore, volume);
    if "vm-" <= volume {
      var i :| 3 <= i < |volume| && '-' !in volume[3..i + 1] && !IsNumeral(volume[i]);
      assert volume[3..][..i - 2] == volume[3..i + 1];
      UpToKeeps(volume[3..], '-', i - 3);
      ParseFails(UpTo(volume[3..], '-'), volume[i]);
    }
  }
}
