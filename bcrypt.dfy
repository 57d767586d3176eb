/**
  The bcrypt password-hashing library the service calls
  (GenerateFromPassword and CompareHashAndPassword), as an ideal model.

  bcrypt never sees a password as such: its key schedule reads the password's
  UTF-8 bytes followed by one zero byte, repeated cyclically until 72 bytes have
  been consumed. Those 72 bytes (`Key`) are all that a hash depends on besides
  cost and salt, so two passwords with the same key match the same hashes.
  A hash is a symbolic term over cost, salt and key: two hashes are equal only
  when all three are. One-wayness is not modelled; nothing in the service
  inspects a hash except CompareHashAndPassword.
*/
module Bcrypt {
  import opened Wrappers

  /** bcrypt.DefaultCost, the cost the service hashes with. */
  const DefaultCost: nat := 10

  /** The number of key bytes the Blowfish key schedule consumes (18 words of 4 bytes). */
  const KeyLength: nat := 72

  /** An octet. */
  newtype Byte = b: int | 0 <= b < 0x100

  /** The random salt drawn for one hash. */
  type Salt = seq<Byte>

  /** The UTF-8 encoding of one character. */
  function EncodeChar(c: char): (b: seq<Byte>)
    ensures 1 <= |b| <= 4
    ensures c as int < 0x80 ==> b == [c as int as Byte]
  {
    var n := c as int;
    if n < 0x80 then [n as Byte]
    else if n < 0x800 then [(0xC0 + n / 0x40) as Byte, (0x80 + n % 0x40) as Byte]
    else if n < 0x1_0000 then
      [(0xE0 + n / 0x1000) as Byte, (0x80 + n / 0x40 % 0x40) as Byte, (0x80 + n % 0x40) as Byte]
    else
      [(0xF0 + n / 0x4_0000) as Byte, (0x80 + n / 0x1000 % 0x40) as Byte,
       (0x80 + n / 0x40 % 0x40) as Byte, (0x80 + n % 0x40) as Byte]
  }

  /** The bytes of a string, as Go's `[]byte(s)` conversion gives them. */
  function Utf8(s: string): seq<Byte>
  {
    if |s| == 0 then [] else EncodeChar(s[0]) + Utf8(s[1..])
  }

  /** Encoding a concatenation concatenates the encodings. */
  lemma {:induction false} Utf8Concat(a: string, b: string)
    ensures Utf8(a + b) == Utf8(a) + Utf8(b)
    decreases |a|
  {
    if |a| != 0 {
      assert (a + b)[0] == a[0] && (a + b)[1..] == a[1..] + b;
      Utf8Concat(a[1..], b);
    } else {
      assert a + b == b;
    }
  }

  /** The first `n` bytes of `s` repeated without end. */
  function Cycle(s: seq<Byte>, n: nat): (r: seq<Byte>)
    requires |s| > 0
    ensures |r| == n
    ensures n <= |s| ==> r == s[..n]
    ensures |s| <= n ==> r[..|s|] == s
    decreases n
  {
    if n <= |s| then s[..n] else s + Cycle(s, n - |s|)
  }

  /** Repeating a sequence twice over gives the same stream as repeating it once. */
  lemma {:induction false} CycleTwice(s: seq<Byte>, n: nat)
    requires |s| > 0
    ensures Cycle(s + s, n) == Cycle(s, n)
    decreases n
  {
    if n <= |s| {
      assert (s + s)[..n] == s[..n];
    } else if n <= 2 * |s| {
      assert (s + s)[..n] == s + s[..n - |s|];
    } else {
      CycleTwice(s, n - 2 * |s|);
      assert Cycle(s, n) == s + (s + Cycle(s, n - 2 * |s|));
    }
  }

  /** The 72 bytes of key material bcrypt derives from a password: its bytes and a zero byte, cycled. */
  function Key(password: string): (k: seq<Byte>)
    ensures |k| == KeyLength
    // a password of 72 bytes or more is cut to its first 72
    ensures |Utf8(password)| >= KeyLength ==> k == Utf8(password)[..KeyLength]
    // a shorter one is followed by its terminating zero byte
    ensures |Utf8(password)| < KeyLength ==> k[..|Utf8(password)| + 1] == Utf8(password) + [0]
  {
    var s := Utf8(password) + [0];
    assert |Utf8(password)| >= KeyLength ==> s[..KeyLength] == Utf8(password)[..KeyLength];
    Cycle(s, KeyLength)
  }

  /** The symbolic one-way image of a password's key under a cost and a salt. */
  datatype Digest = Digest(cost: nat, salt: Salt, key: seq<Byte>)

  /** The stored form of a password: cost, salt and digest. */
  datatype PasswordHash = PasswordHash(cost: nat, salt: Salt, digest: Digest)

  /** Why hashing can fail: the random source could not supply a salt. */
  datatype HashError = EntropyUnavailable

  /**
    Hashes `password` at DefaultCost. `entropy` is what the random source delivers:
    a salt, or nothing when reading it fails.
  */
  function GenerateFromPassword(password: string, entropy: Option<Salt>): (r: Result<PasswordHash, HashError>)
    ensures r.Ok? <==> entropy.Some?
    ensures r.Err? ==> r.error == EntropyUnavailable
    ensures r.Ok? ==> r.value.cost == DefaultCost && r.value.salt == entropy.value
    // the fresh hash accepts exactly the passwords whose key is the hashed password's key
    ensures r.Ok? ==> forall q :: CompareHashAndPassword(r.value, q) <==> Key(q) == Key(password)
  {
    match entropy
    case None => Err(EntropyUnavailable)
    case Some(salt) => Ok(PasswordHash(DefaultCost, salt, Digest(DefaultCost, salt, Key(password))))
  }

  /** True when `password` hashes to `hash` under the cost and salt stored in it (a nil error in Go). */
  function CompareHashAndPassword(hash: PasswordHash, password: string): (matches: bool)
  {
    hash.digest == Digest(hash.cost, hash.salt, Key(password))
  }

  /** A hash of `p` also accepts `p`, a NUL character and `p` again. */
  lemma NulRepeatMatches(p: string, salt: Salt)
    ensures CompareHashAndPassword(GenerateFromPassword(p, Some(salt)).value, p + "\0" + p)
  {
    var b := Utf8(p);
    Utf8Concat(p + "\0", p);
    Utf8Concat(p, "\0");
    assert Utf8("\0") == [0];
    assert Utf8(p + "\0" + p) + [0] == (b + [0]) + (b + [0]);
    CycleTwice(b + [0], KeyLength);
  }

  /** Passwords whose bytes agree on the first 72 are accepted by each other's hashes. */
  lemma LongPasswordsMatch(p: string, q: string, salt: Salt)
    requires |Utf8(p)| >= KeyLength && |Utf8(q)| >= KeyLength
    requires Utf8(p)[..KeyLength] == Utf8(q)[..KeyLength]
    ensures CompareHashAndPassword(GenerateFromPassword(p, Some(salt)).value, q)
  {
  }

  /**
    Passwords shorter than 72 bytes and free of NUL characters are told apart
    whenever their bytes differ.
  */
  lemma {:induction false} ShortPasswordsDiffer(p: string, q: string, salt: Salt)
    requires |Utf8(p)| < KeyLength && |Utf8(q)| < KeyLength
    requires 0 !in Utf8(p) && 0 !in Utf8(q)
    requires Utf8(p) != Utf8(q)
    ensures !CompareHashAndPassword(GenerateFromPassword(p, Some(salt)).value, q)
  {
    var bp, bq := Utf8(p), Utf8(q);
    var kp, kq := Key(p), Key(q);
    assert kp[..|bp| + 1] == bp + [0] && kq[..|bq| + 1] == bq + [0];
    if |bp| < |bq| {
      // p's key has its zero byte where q's key still holds one of q's bytes
      assert kp[|bp|] == 0 && kq[|bp|] == bq[|bp|];
    } else if |bq| < |bp| {
      assert kq[|bq|] == 0 && kp[|bq|] == bp[|bq|];
    } else {
      assert kp[..|bp|] == bp && kq[..|bq|] == bq;
    }
  }
}
