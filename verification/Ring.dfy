/** Ring names: src/ring.rs. */
module Ring {
  import opened Types

  /** "open" */
  const OPEN_RING_NAME: Name := [111, 112, 101, 110]

  /**
   The UTF-8 encoding of a Unicode `White_Space` character starts at `i`. In valid UTF-8 an
   encoding can only start where a character starts, so this is a test on characters.
   */
  predicate WhitespaceAt(s: Bytes, i: nat)
    requires i < |s|
  {
    || 0x09 <= s[i] <= 0x0D
    || s[i] == 0x20
    || (i + 1 < |s| && s[i] == 0xC2 && (s[i + 1] == 0x85 || s[i + 1] == 0xA0))
    || (i + 2 < |s| && s[i] == 0xE1 && s[i + 1] == 0x9A && s[i + 2] == 0x80)
    || (i + 2 < |s| && s[i] == 0xE2 && s[i + 1] == 0x80
        && (0x80 <= s[i + 2] <= 0x8A || s[i + 2] == 0xA8 || s[i + 2] == 0xA9 || s[i + 2] == 0xAF))
    || (i + 2 < |s| && s[i] == 0xE2 && s[i + 1] == 0x81 && s[i + 2] == 0x9F)
    || (i + 2 < |s| && s[i] == 0xE3 && s[i + 1] == 0x80 && s[i + 2] == 0x80)
  }

  /** No whitespace and no NUL. */
  predicate CleanName(name: Name) {
    forall i :: 0 <= i < |name| ==> name[i] != 0 && !WhitespaceAt(name, i)
  }

  predicate ValidName(name: Name) {
    name != [] && CleanName(name)
  }

  /** `Ring::new`: the ring, identified by its name, or why the name is refused. */
  function NewRing(name: Name): (r: Result<Name>)
    ensures r.Ok? <==> ValidName(name)
    ensures r.Ok? ==> r.value == name
    ensures r == Err(RingNameEmpty) <==> name == []
    ensures r == Err(RingNameInvalidChars) <==>
            exists i :: 0 <= i < |name| && (name[i] == 0 || WhitespaceAt(name, i))
  {
    if |name| == 0 then Err(RingNameEmpty)
    else if !CleanName(name) then Err(RingNameInvalidChars)
    else Ok(name)
  }

  predicate IsOpen(name: Name) {
    name == OPEN_RING_NAME
  }

  predicate NulFree(name: Name) {
    forall i :: 0 <= i < |name| ==> name[i] != 0
  }

  /** What the NUL-separated encodings rely on: a name `Ring::new` accepts has no NUL in it. */
  lemma ValidNamesAreNulFree(name: Name)
    requires ValidName(name)
    ensures NulFree(name) && |name| > 0
  {
    forall i | 0 <= i < |name|
      ensures name[i] != 0
    {
      assert !WhitespaceAt(name, i);
    }
  }

  // ---------------------------------------------------------------- whitespace, by character

  /** The UTF-8 encoding of a code point. */
  function Utf8(c: nat): Bytes
    requires c < 0x11_0000
  {
    if c < 0x80 then [c]
    else if c < 0x800 then [0xC0 + c / 0x40, 0x80 + c % 0x40]
    else if c < 0x1_0000 then [0xE0 + c / 0x1000, 0x80 + c / 0x40 % 0x40, 0x80 + c % 0x40]
    else [0xF0 + c / 0x4_0000, 0x80 + c / 0x1000 % 0x40, 0x80 + c / 0x40 % 0x40, 0x80 + c % 0x40]
  }

  /** Unicode's `White_Space` property. */
  predicate WhiteSpace(c: nat) {
    || 0x09 <= c <= 0x0D || c == 0x20 || c == 0x85 || c == 0xA0 || c == 0x1680 || 0x2000 <= c <= 0x200A
    || c == 0x2028 || c == 0x2029 || c == 0x202F || c == 0x205F || c == 0x3000
  }

  /** The byte tests accept exactly the characters that are white space. */
  lemma WhitespaceIsWhiteSpace(c: nat, rest: Bytes)
    requires c < 0x11_0000
    ensures WhitespaceAt(Utf8(c) + rest, 0) <==> WhiteSpace(c)
  {
    var s := Utf8(c) + rest;
    if c < 0x80 {
      assert s[0] == c;
    } else if c < 0x800 {
      assert s[0] == 0xC0 + c / 0x40 && s[1] == 0x80 + c % 0x40;
    } else if c < 0x1_0000 {
      assert s[0] == 0xE0 + c / 0x1000 && s[1] == 0x80 + c / 0x40 % 0x40 && s[2] == 0x80 + c % 0x40;
      assert c == 0x1000 * (c / 0x1000) + 0x40 * (c / 0x40 % 0x40) + c % 0x40;
    } else {
      assert s[0] == 0xF0 + c / 0x4_0000;
    }
  }
}
