/** The shard-selection hash: splitmix64's finaliser over an arbitrary string hash. */
module ShardHash {

  function Xor30(h: bv64): bv64 { h ^ (h >> 30) }
  function Mul1(h: bv64): bv64 { h * 0xbf58476d1ce4e5b9 }
  function Xor27(h: bv64): bv64 { h ^ (h >> 27) }
  function Mul2(h: bv64): bv64 { h * 0x94d049bb133111eb }
  function Xor31(h: bv64): bv64 { h ^ (h >> 31) }

  function Mix(h: bv64): bv64 {
    Xor31(Mul2(Xor27(Mul1(Xor30(h)))))
  }

  // ---- Each stage undone: inverse multipliers modulo 2^64, and shifts repeated until
  // they run off the word.

  function UnXor30(h: bv64): bv64 { h ^ (h >> 30) ^ (h >> 60) }
  function UnMul1(h: bv64): bv64 { h * 0x96de1b173f119089 }
  function UnXor27(h: bv64): bv64 { h ^ (h >> 27) ^ (h >> 54) }
  function UnMul2(h: bv64): bv64 { h * 0x319642b2d24d8ec3 }
  function UnXor31(h: bv64): bv64 { h ^ (h >> 31) ^ (h >> 62) }

  function Unmix(h: bv64): bv64 {
    UnXor30(UnMul1(UnXor27(UnMul2(UnXor31(h)))))
  }

  lemma {:induction false} Xor30Inverse(h: bv64)
    ensures UnXor30(Xor30(h)) == h && Xor30(UnXor30(h)) == h
  {
    assert UnXor30(h ^ (h >> 30)) == h;
    assert Xor30(h ^ (h >> 30) ^ (h >> 60)) == h;
  }

  lemma {:induction false} Mul1Inverse(h: bv64)
    ensures UnMul1(Mul1(h)) == h && Mul1(UnMul1(h)) == h
  {
    assert UnMul1(h * 0xbf58476d1ce4e5b9) == h;
    assert Mul1(h * 0x96de1b173f119089) == h;
  }

  lemma {:induction false} Xor27Inverse(h: bv64)
    ensures UnXor27(Xor27(h)) == h && Xor27(UnXor27(h)) == h
  {
    assert UnXor27(h ^ (h >> 27)) == h;
    assert Xor27(h ^ (h >> 27) ^ (h >> 54)) == h;
  }

  lemma {:induction false} Mul2Inverse(h: bv64)
    ensures UnMul2(Mul2(h)) == h && Mul2(UnMul2(h)) == h
  {
    assert UnMul2(h * 0x94d049bb133111eb) == h;
    assert Mul2(h * 0x319642b2d24d8ec3) == h;
  }

  lemma {:induction false} Xor31Inverse(h: bv64)
    ensures UnXor31(Xor31(h)) == h && Xor31(UnXor31(h)) == h
  {
    assert UnXor31(h ^ (h >> 31)) == h;
    assert Xor31(h ^ (h >> 31) ^ (h >> 62)) == h;
  }

  lemma {:induction false} UnmixMix(h: bv64)
    ensures Unmix(Mix(h)) == h
  {
    Xor30Inverse(h);
    Mul1Inverse(Xor30(h));
    Xor27Inverse(Mul1(Xor30(h)));
    Mul2Inverse(Xor27(Mul1(Xor30(h))));
    Xor31Inverse(Mul2(Xor27(Mul1(Xor30(h)))));
  }

  lemma {:induction false} MixUnmix(h: bv64)
    ensures Mix(Unmix(h)) == h
  {
    Xor31Inverse(h);
    Mul2Inverse(UnXor31(h));
    Xor27Inverse(UnMul2(UnXor31(h)));
    Mul1Inverse(UnXor27(UnMul2(UnXor31(h))));
    Xor30Inverse(UnMul1(UnXor27(UnMul2(UnXor31(h)))));
  }

  /** The finaliser is a bijection on 64-bit words: different hashes stay different, and
      every word is reached. */
  lemma {:induction false} MixBijective(g: bv64, h: bv64)
    ensures Mix(g) == Mix(h) <==> g == h
    ensures exists x :: Mix(x) == h
  {
    UnmixMix(g);
    UnmixMix(h);
    MixUnmix(h);
  }

  /** The state of splitmix64 after `n` steps from a seed. */
  function Stepped(seed: bv64, n: nat): bv64 {
    if n == 0 then seed else Stepped(seed, n - 1) + 0x9e3779b97f4a7c15
  }

  /** Over the states of splitmix64 it gives that generator's well-known outputs: the first
      five for the seed 1234567. */
  lemma KnownOutputs()
    ensures Mix(Stepped(1234567, 1)) == 6457827717110365317
    ensures Mix(Stepped(1234567, 2)) == 3203168211198807973
    ensures Mix(Stepped(1234567, 3)) == 9817491932198370423
    ensures Mix(Stepped(1234567, 4)) == 4593380528125082431
    ensures Mix(Stepped(1234567, 5)) == 16408922859458223821
  {
  }

  /** The number a key's shard is chosen by, given the library's hash of strings. */
  function Selection(hash: string -> bv64): string -> nat {
    key => Mix(hash(key)) as nat
  }

  lemma {:induction false} WordValue(g: bv64, h: bv64)
    ensures g as nat == h as nat <==> g == h
  {
    if g as nat == h as nat {
      assert (g as nat) as bv64 == (h as nat) as bv64;
    }
  }

  /** It is the mixed hash itself. */
  lemma SelectionIsMixed(hash: string -> bv64, key: string)
    ensures Selection(hash)(key) < 0x1_0000_0000_0000_0000 && Selection(hash)(key) as bv64 == Mix(hash(key))
  {
  }

  /** Two keys are told apart by the selection hash exactly when the library's hash
      already tells them apart. */
  lemma {:induction false} SelectionKeepsHashes(hash: string -> bv64, a: string, b: string)
    ensures Selection(hash)(a) == Selection(hash)(b) <==> hash(a) == hash(b)
  {
    MixBijective(hash(a), hash(b));
    WordValue(Mix(hash(a)), Mix(hash(b)));
  }
}
