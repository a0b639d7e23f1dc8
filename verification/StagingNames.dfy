/** The names the staging role gives its files, and the texts it compares, said character by character. */
module StagingNames {
  import opened Wrappers
  import opened Staging
  import opened StagingSteps

  // ----- Marker tokens -----

  /** The characters a marker name keeps of its source: `A-Za-z0-9._~-`. */
  ghost predicate IsKept(c: char) {
    'A' <= c <= 'Z' || 'a' <= c <= 'z' || '0' <= c <= '9' || c == '.' || c == '_' || c == '~' || c == '-'
  }

  ghost predicate AllKept(s: string) {
    forall c | c in s :: IsKept(c)
  }

  /** One character is kept or dropped ... */
  lemma TokenOfChar(c: char)
    ensures Token([c]) == if IsKept(c) then [c] else ""
  {
    assert [c][1..] == "" && Token([c][1..]) == "";
  }

  /** ... each for itself, in order. */
  lemma {:induction false} TokenAppend(a: string, b: string)
    ensures Token(a + b) == Token(a) + Token(b)
  {
    if a == "" {
      assert a + b == b;
    } else {
      assert (a + b)[1..] == a[1..] + b;
      TokenAppend(a[1..], b);
    }
  }

  /** A source without any other character is its own token; other characters drop out. */
  lemma {:induction false} TokenExactly(s: string)
    ensures AllKept(s) ==> Token(s) == s
    ensures AllKept(Token(s))
    ensures (forall c | c in s :: !IsKept(c)) ==> Token(s) == ""
  {
    if s != "" {
      TokenExactly(s[1..]);
      TokenOfChar(s[0]);
      assert s == [s[0]] + s[1..];
      TokenAppend([s[0]], s[1..]);
      assert s[0] in s && forall c | c in s[1..] :: c in s;
    }
  }

  lemma Between(a: string, x: string, y: string, b: string)
    requires a + x + b == a + y + b
    ensures x == y
  {
    assert |x| == |y|;
    assert (a + x + b)[|a|..|a| + |x|] == x && (a + y + b)[|a|..|a| + |y|] == y;
  }

  /** A bump - one stretch of kept characters replaced by another - changes the token. */
  lemma BumpedToken(before: string, x: string, y: string, after: string)
    requires AllKept(x) && AllKept(y) && x != y
    ensures Token(before + x + after) != Token(before + y + after)
  {
    TokenAppend(before + x, after);
    TokenAppend(before, x);
    TokenAppend(before + y, after);
    TokenAppend(before, y);
    TokenExactly(x);
    TokenExactly(y);
    if Token(before + x + after) == Token(before + y + after) {
      Between(Token(before), x, y, Token(after));
    }
  }

  /** Sources that differ in other characters only share their token, and so their marker. */
  lemma SharedToken(before: string, x: string, y: string, after: string)
    requires (forall c | c in x :: !IsKept(c)) && (forall c | c in y :: !IsKept(c))
    ensures Token(before + x + after) == Token(before + y + after)
  {
    TokenAppend(before + x, after);
    TokenAppend(before, x);
    TokenAppend(before + y, after);
    TokenAppend(before, y);
    TokenExactly(x);
    TokenExactly(y);
  }

  /** An entry's marker stands for its url if it has one, else for its image. */
  lemma EntryMarker(e: Entry)
    ensures e.url.Some? ==> Marker(e) == e.dest + ".published." + Token(e.url.value)
    ensures e.url.None? && e.image.Some? ==> Marker(e) == e.dest + ".published." + Token(e.image.value)
  {
  }

  /** A marker's name: destination, suffix, token. */
  lemma MarkerName(dest: string, source: string)
    ensures AllKept(source) ==> MarkerPath(dest, source) == dest + ".published." + source
    ensures dest + ".published." <= MarkerPath(dest, source)
  {
    TokenExactly(source);
  }

  // ----- Legacy names -----

  /** A legacy file is one whose name ends in `.published` or `.sha256`. */
  lemma LegacyNames(p: string)
    ensures IsLegacyName(p) <==> exists stem :: p == stem + ".published" || p == stem + ".sha256"
  {
    if EndsWith(p, ".published") {
      assert p == p[..|p| - 10] + ".published";
    }
    if EndsWith(p, ".sha256") {
      assert p == p[..|p| - 7] + ".sha256";
    }
    forall stem, suffix | p == stem + suffix ensures EndsWith(p, suffix) {
      assert p[|p| - |suffix|..] == suffix;
    }
  }

  // ----- Tags -----

  /** An image reference of printable ASCII characters has no space at its edges. */
  lemma PlainImageName(image: string)
    requires image != "" && forall c | c in image :: '!' <= c <= '~'
    ensures NoEdgeSpace(image)
  {
    assert image[0] in image && image[|image| - 1] in image;
    TrimmedEdges("", image, "");
    assert "" + (image + "") == image;
  }

  /** What Python counts as white space. */
  ghost predicate AllWhite(s: string) {
    forall c | c in s ::
      || '\t' <= c <= '\r' || '\U{1c}' <= c <= ' ' || c == '\U{85}' || c == '\U{a0}' || c == '\U{1680}'
      || '\U{2000}' <= c <= '\U{200a}' || c == '\U{2028}' || c == '\U{2029}' || c == '\U{202f}' || c == '\U{205f}'
      || c == '\U{3000}'
  }

  /** Trimming takes away white space around a text that begins and ends with a printable character. */
  lemma TrimmedEdges(lead: string, s: string, tail: string)
    requires s != "" && '!' <= s[0] <= '~' && '!' <= s[|s| - 1] <= '~'
    requires AllWhite(lead) && AllWhite(tail)
    ensures Trim(lead + (s + tail)) == s
  {
    LeftTrimmed(lead, s + tail);
    RightTrimmed(s, tail);
  }

  lemma {:induction false} LeftTrimmed(lead: string, s: string)
    requires s != "" && '!' <= s[0] <= '~'
    requires AllWhite(lead)
    ensures TrimLeft(lead + s) == s
  {
    if lead == "" {
      assert lead + s == s;
    } else {
      assert forall c | c in lead[1..] :: c in lead;
      assert lead[0] in lead && (lead + s)[1..] == lead[1..] + s;
      LeftTrimmed(lead[1..], s);
    }
  }

  lemma {:induction false} RightTrimmed(s: string, tail: string)
    requires s != "" && '!' <= s[|s| - 1] <= '~'
    requires AllWhite(tail)
    ensures TrimRight(s + tail) == s
  {
    if tail == "" {
      assert s + tail == s;
    } else {
      var init := tail[..|tail| - 1];
      assert forall c | c in init :: c in tail;
      assert tail[|tail| - 1] in tail && (s + tail)[..|s + tail| - 1] == s + init;
      RightTrimmed(s, init);
    }
  }
}
