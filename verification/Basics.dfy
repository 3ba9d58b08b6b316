/** What the other modules share. */
module Basics {
  // Unsigned numbers of the C code: char, which is unsigned on the target, and 16 bits.
  type byte = x: int | 0 <= x < 256
  type word = x: int | 0 <= x < 0x1_0000

  datatype Option<+T> = None | Some(value: T)

  /** A C string: the characters before the first zero. */
  function CString(s: string): string {
    if s == "" || s[0] == '\0' then "" else [s[0]] + CString(s[1..])
  }

  /** A text with a zero behind it is read back as that text, whatever comes after the zero. */
  lemma {:induction false} CStringOf(t: string, s: string)
    requires '\0' !in t && t + "\0" <= s
    ensures CString(s) == t
    decreases |t|
  {
    if t != "" {
      assert s[0] == (t + "\0")[0] == t[0];
      assert t[0] in t && forall c <- t[1..] :: c in t;
      assert t[1..] + "\0" == (t + "\0")[1..] == s[..|t| + 1][1..] == s[1..][..|t|];
      CStringOf(t[1..], s[1..]);
    }
  }

  /** Two sequences that stand together stand each alone. */
  lemma Slices<T>(s: seq<T>, at: nat, a: seq<T>, b: seq<T>)
    requires at + |a| + |b| <= |s| && s[at..at + |a| + |b|] == a + b
    ensures s[at..at + |a|] == a && s[at + |a|..at + |a| + |b|] == b
  {
    var both := s[at..at + |a| + |b|];
    assert both[..|a|] == a && both[|a|..] == b;
  }
}
