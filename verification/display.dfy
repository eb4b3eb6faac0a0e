/** Text output to the on-screen display: `OSD_Puts` (rtl/loader/firmware/boot.c:23-28). */
module Display {

  const NUL: char := '\0'

  /** The characters `OSD_Puts` hands to `OSD_Putchar`: those of `str` up to,
      not including, the first NUL; all of `str` if it holds none. */
  function Puts(str: seq<char>): (out: seq<char>)
    ensures out <= str
    ensures NUL !in out
    ensures |out| < |str| ==> str[|out|] == NUL
  {
    if |str| == 0 || str[0] == NUL then [] else [str[0]] + Puts(str[1..])
  }

  /** The three properties above pin the output down: any prefix without a NUL
      that stops only at a NUL is what `Puts` emits. */
  lemma {:induction false} PutsUnique(str: seq<char>, out: seq<char>)
    requires out <= str && NUL !in out
    requires |out| < |str| ==> str[|out|] == NUL
    ensures Puts(str) == out
  {
    if |str| > 0 && str[0] != NUL {
      assert |out| > 0;
      PutsUnique(str[1..], out[1..]);
    }
  }

  /** A message without NUL is emitted in full, which is the case for every
      literal the loader prints. */
  lemma PutsWholeMessage(str: seq<char>)
    requires NUL !in str
    ensures Puts(str) == str
  {
    PutsUnique(str, str);
  }
}
