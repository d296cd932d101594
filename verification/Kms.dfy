/** The key store of tissdb/crypto/kms.cpp, whose cipher is an exclusive or with a repeated key. */
module Kms {
  import opened Bytes

  function Xored(s: seq<Byte>, key: seq<Byte>): (r: seq<Byte>)
    ensures |r| == |s|
  {
    if key == [] then s else seq(|s|, i requires 0 <= i < |s| => s[i] ^ key[i % |key|])
  }

  lemma ByteTwice(a: Byte, b: Byte)
    ensures (a ^ b) ^ b == a
  {
  }

  /** Decrypting with the key that encrypted gives the plaintext back. */
  lemma XoredTwice(s: seq<Byte>, key: seq<Byte>)
    ensures Xored(Xored(s, key), key) == s
  {
    if key != [] {
      forall i | 0 <= i < |s| ensures Xored(Xored(s, key), key)[i] == s[i] {
        ByteTwice(s[i], key[i % |key|]);
      }
    }
  }

  /** A byte and its ciphertext differ by the key's byte at its place, repeated; where that is 0 they are the same, and only there. */
  lemma XoredAt(s: seq<Byte>, key: seq<Byte>, i: nat)
    requires i < |s| && key != []
    ensures s[i] ^ Xored(s, key)[i] == key[i % |key|]
    ensures Xored(s, key)[i] == s[i] <==> key[i % |key|] == 0
  {
    ByteBetween(s[i], key[i % |key|]);
  }

  lemma ByteBetween(a: Byte, b: Byte)
    ensures a ^ (a ^ b) == b && (a ^ b == a <==> b == 0)
  {
  }

  /** The data key that `generate_new_dek` makes: the bytes 0 to 31. */
  function Dek(): seq<Byte> { seq(32, i requires 0 <= i < 32 => i as Byte) }

  class KeyManagementSystem {
    const master: seq<Byte>
    var encryptedDeks: map<Text, seq<Byte>>

    ghost predicate Valid()
      reads this
    {
      forall name <- encryptedDeks :: encryptedDeks[name] == Xored(Dek(), master)
    }

    constructor (masterKey: seq<Byte>)
      ensures Valid() && master == masterKey
    {
      master := masterKey;
      encryptedDeks := map[];
    }

    /** `encrypt` and `decrypt`, which are the same loop. */
    method Encrypt(plaintext: seq<Byte>, dek: seq<Byte>) returns (ciphertext: seq<Byte>)
      ensures ciphertext == Xored(plaintext, dek)
    {
      ciphertext := plaintext;
      if dek == [] {
        return;
      }
      for i := 0 to |ciphertext|
        invariant |ciphertext| == |plaintext|
        invariant forall k | 0 <= k < |plaintext| :: ciphertext[k] == if k < i then plaintext[k] ^ dek[k % |dek|] else plaintext[k]
      {
        ciphertext := ciphertext[i := ciphertext[i] ^ dek[i % |dek|]];
      }
    }

    method GenerateNewDek(name: Text) returns (dek: seq<Byte>)
      requires Valid()
      modifies this
      ensures Valid() && dek == Dek() && encryptedDeks == old(encryptedDeks)[name := Xored(Dek(), master)]
    {
      dek := seq(32, _ => 0);
      for i := 0 to 32
        invariant |dek| == 32 && forall k | 0 <= k < i :: dek[k] == k as Byte
      {
        dek := dek[i := i as Byte];
      }
      var encrypted := Encrypt(dek, master);
      encryptedDeks := encryptedDeks[name := encrypted];
    }

    /** The same key for every name, generated now or earlier. */
    method GetDek(name: Text) returns (dek: seq<Byte>)
      requires Valid()
      modifies this
      ensures Valid() && dek == Dek()
      ensures encryptedDeks == if name in old(encryptedDeks) then old(encryptedDeks) else old(encryptedDeks)[name := Xored(Dek(), master)]
    {
      if name !in encryptedDeks {
        dek := GenerateNewDek(name);
      } else {
        dek := Encrypt(encryptedDeks[name], master);
        XoredTwice(Dek(), master);
      }
    }

    method DeleteDek(name: Text)
      requires Valid()
      modifies this
      ensures Valid() && encryptedDeks == old(encryptedDeks) - {name}
    {
      encryptedDeks := encryptedDeks - {name};
    }
  }
}
