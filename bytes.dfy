/** The firmware's 8-bit `char` and the C-string conventions its buffers rely on. */
module Bytes {

  /** One AVR `char`: an 8-bit value. Kept as a `char` so C string literals read as text. */
  type Byte = c: char | c < 256 as char

  const NUL: Byte := 0 as char
  /** 0x0A, line feed: the RFID reader's start-of-frame byte and the ESP8266's line end. */
  const LF: Byte := 10 as char
  /** 0x0D, carriage return: the RFID reader's end-of-frame byte. */
  const CR: Byte := 13 as char
  const SP: Byte := ' '

  /** The C string stored at the start of `s`: the bytes before the first NUL. */
  function CStr(s: seq<Byte>): (r: seq<Byte>)
    requires NUL in s
    ensures |r| < |s| && r == s[..|r|] && s[|r|] == NUL
    ensures NUL !in r
  {
    if s[0] == NUL then [] else [s[0]] + CStr(s[1..])
  }

  /** A string followed by its terminator reads back as that string, whatever follows. */
  lemma {:induction false} CStrOfTerminated(t: seq<Byte>, rest: seq<Byte>)
    requires NUL !in t
    ensures CStr(t + [NUL] + rest) == t
  {
    var s := t + [NUL] + rest;
    assert s[|t|] == NUL;
  }

  /**
   * `strcmp(mem + start, t) == 0` for a string `t` without NUL: the bytes of `mem` from
   * `start` spell `t` and are then terminated. strcmp stops at the first difference or at
   * the terminator of `t`, so it reads nothing past `mem[start + |t|]`.
   */
  predicate MatchesAt(mem: seq<Byte>, start: nat, t: seq<Byte>)
  {
    start + |t| < |mem| && mem[start..start + |t|] == t && mem[start + |t|] == NUL
  }

  /** The strcmp reading agrees with comparing the C string found at `start` with `t`. */
  lemma MatchesAtIsCStrEquality(mem: seq<Byte>, start: nat, t: seq<Byte>)
    requires start <= |mem| && NUL in mem[start..] && NUL !in t
    ensures MatchesAt(mem, start, t) <==> CStr(mem[start..]) == t
  {
    var s := mem[start..];
    if MatchesAt(mem, start, t) {
      assert s == t + [NUL] + s[|t| + 1..];
      CStrOfTerminated(t, s[|t| + 1..]);
    }
    if CStr(s) == t {
      assert mem[start..start + |t|] == s[..|t|];
    }
  }
}
