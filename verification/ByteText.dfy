/** Text as the bytes of a file hold it, one character each. */
module ByteText {
  import opened Words

  predicate StartsWith(s: string, prefix: string) {
    |prefix| <= |s| && s[..|prefix|] == prefix
  }

  /** Text that a NUL-terminated field can hold. */
  predicate Plain(s: string) {
    forall k :: 0 <= k < |s| ==> 0 < s[k] as int < 256
  }

  function Chars(s: string): (r: seq<byte>)
    ensures |r| == |s|
  {
    if s == "" then [] else [s[0] as int % 256] + Chars(s[1..])
  }

  lemma {:induction false} CharsHead(s: string)
    requires Plain(s) && s != ""
    ensures Chars(s) == [s[0] as int] + Chars(s[1..]) && 0 < s[0] as int < 256 && Plain(s[1..])
  {
    SmallMod(s[0] as int, 256);
  }

  lemma {:induction false} CharsAt(s: string, k: nat)
    requires Plain(s) && k < |s|
    ensures Chars(s)[k] == s[k] as int && Chars(s)[k] != 0
    decreases |s|
  {
    CharsHead(s);
    if k > 0 { CharsAt(s[1..], k - 1); }
  }
}
