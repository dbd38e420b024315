/** The string hash that the cache and the load balancer share: djb2 on 32-bit
    words. */
module Hashing {
  const WORD: nat := 0x1_0000_0000

  function Djb2(s: string): (h: nat)
    ensures h < WORD
  {
    if s == "" then 5381 else (Djb2(s[..|s| - 1]) * 33 + s[|s| - 1] as int) % WORD
  }

  method Hash(s: string) returns (hash: nat)
    ensures hash == Djb2(s)
  {
    hash := 5381;
    for i := 0 to |s|
      invariant hash == Djb2(s[..i])
    {
      assert s[..i + 1][..i] == s[..i];
      hash := (hash * 33 + s[i] as int) % WORD;
    }
    assert s[..|s|] == s;
  }
}
