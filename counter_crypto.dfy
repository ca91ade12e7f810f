/** `CounterCrypto` (src/crypto/counter.js): a stand-in for the cryptographic primitives that
    returns fixed tokens and counts how often each primitive is used. */
module CounterCryptos {

  /** The five counters of `counts`. */
  datatype Counts = Counts(random: nat, prg: nat, gen: nat, enc: nat, dec: nat)

  class CounterCrypto {
    var counts: Counts

    /** A fresh instance has every counter at 0. */
    constructor()
      ensures counts == Counts(0, 0, 0, 0, 0)
    {
      counts := Counts(0, 0, 0, 0, 0);
    }

    /** `stat`: the counters. */
    function Stat(): (c: Counts)
      reads this
      ensures c == counts
    {
      counts
    }

    /** `random()`: the seed token; counts one `random`. */
    method Random() returns (seed: string)
      modifies this
      ensures seed == "r"
      ensures counts == old(counts).(random := old(counts).random + 1)
    {
      counts := counts.(random := counts.random + 1);
      seed := "r";
    }

    /** `PRG(seed, k)`: k seed tokens from a seed token; counts one `PRG`. */
    method PRG(seed: string, k: nat) returns (seeds: seq<string>)
      requires seed == "r"
      modifies this
      ensures |seeds| == k && forall i :: 0 <= i < k ==> seeds[i] == "r"
      ensures counts == old(counts).(prg := old(counts).prg + 1)
    {
      counts := counts.(prg := counts.prg + 1);
      seeds := seq(k, _ => "r");
    }

    /** `Gen(seed)`: a key pair from a seed token; counts one `Gen`. */
    method Gen(seed: string) returns (pk: string, sk: string)
      requires seed == "r"
      modifies this
      ensures pk == "pk" && sk == "sk"
      ensures counts == old(counts).(gen := old(counts).gen + 1)
    {
      counts := counts.(gen := counts.gen + 1);
      pk, sk := "pk", "sk";
    }

    /** `Enc(pk, m)`: a ciphertext token under a public key token; counts one `Enc`. */
    method Enc<M>(pk: string, m: M) returns (c: string)
      requires pk == "pk"
      modifies this
      ensures c == "c"
      ensures counts == old(counts).(enc := old(counts).enc + 1)
    {
      counts := counts.(enc := counts.enc + 1);
      c := "c";
    }

    /** `Dec(sk, c)`: decrypts a ciphertext token with a secret key token to nothing; counts
        one `Dec`. */
    method Dec(sk: string, c: string)
      requires sk == "sk" && c == "c"
      modifies this
      ensures counts == old(counts).(dec := old(counts).dec + 1)
    {
      counts := counts.(dec := counts.dec + 1);
    }
  }

  /** Total number of primitive calls recorded. */
  function Total(c: Counts): nat
  {
    c.random + c.prg + c.gen + c.enc + c.dec
  }

  /** The key-generation round trip of the tree protocol, random then Gen then Enc then Dec,
      uses each of those primitives once and nothing else. */
  method KeyRoundTrip(crypto: CounterCrypto) returns (pk: string, sk: string, c: string)
    modifies crypto
    ensures pk == "pk" && sk == "sk" && c == "c"
    ensures crypto.counts == old(crypto.counts).(random := old(crypto.counts).random + 1,
                                                 gen := old(crypto.counts).gen + 1,
                                                 enc := old(crypto.counts).enc + 1,
                                                 dec := old(crypto.counts).dec + 1)
    ensures Total(crypto.counts) == Total(old(crypto.counts)) + 4
  {
    var seed := crypto.Random();
    pk, sk := crypto.Gen(seed);
    c := crypto.Enc(pk, "message");
    crypto.Dec(sk, c);
  }
}
