/** Unpadded-message recovery against RSA: a server decrypts any ciphertext except the
    one it published, and the attacker blinds that ciphertext with 2^e, has the blinded
    one decrypted, and divides the answer by 2 modulo n. */
module Challenge41 {
  import opened Bytes
  import opened Arith
  import opened Rsa

  /** Modulus size of the server's key. */
  const BITS: nat := 512

  datatype Error =
    | WrongInputToOracle   // the server refused to decrypt the ciphertext it was given
    | Mismatch             // `compare_eq` found the candidate different from the secret

  /** The server: its key, the secret cleartext and that cleartext's encryption. */
  datatype Server = Server(rsa: Key, cleartext: nat, ciphertext: nat)
  {
    /** A server as `new` builds it: a valid key, a cleartext below the modulus (it has
        BITS - 1 bits and the modulus BITS), and the ciphertext of that cleartext. */
    ghost predicate Valid()
    {
      rsa.Valid() && cleartext < rsa.n && ciphertext == rsa.Encrypt(cleartext)
    }

    /** `decrypt`: any ciphertext but the published one is decrypted. */
    function Decrypt(c: nat): (r: Option<nat>)
      requires rsa.n > 0
      ensures r.None? <==> c == ciphertext
      ensures r.Some? ==> r.value < rsa.n
    {
      if c == ciphertext then None else Some(rsa.Decrypt(c))
    }

    /** `verify_solution`: success exactly when the candidate is the secret. */
    function VerifySolution(candidate: nat): (r: Result<(), Error>)
      ensures r.Ok? <==> candidate == cleartext
      ensures r.Err? ==> r.error == Mismatch
    {
      if cleartext == candidate then Ok(()) else Err(Mismatch)
    }
  }

  /** `Server::new`, with the generated key and the random cleartext as parameters. */
  function NewServer(rsa: Key, cleartext: nat): (s: Server)
    requires rsa.n > 0
    ensures rsa.Valid() && cleartext < rsa.n ==> s.Valid()
    ensures s.rsa == rsa && s.cleartext == cleartext
  {
    Server(rsa, cleartext, rsa.Encrypt(cleartext))
  }

  /** The server's decryption oracle, seen through encryption: it refuses exactly the
      residue of the secret and otherwise hands back the residue it was sent. */
  lemma DecryptOracle(server: Server, x: nat)
    requires server.Valid()
    ensures server.Decrypt(server.rsa.Encrypt(x)).None? <==> x % server.rsa.n == server.cleartext
    ensures server.Decrypt(server.rsa.Encrypt(x)).Some? ==>
              server.Decrypt(server.rsa.Encrypt(x)).value == x % server.rsa.n
  {
    var rsa, m := server.rsa, server.cleartext;
    assert rsa.Encrypt(x) == server.ciphertext <==> x % rsa.n == m by {
      SameCiphertext(rsa, x, m);
    }
    DecryptEncrypt(rsa, x);
  }

  /** Two cleartexts encrypt alike exactly when they agree modulo n. */
  lemma SameCiphertext(rsa: Key, x: nat, m: nat)
    requires rsa.Valid() && m < rsa.n
    ensures rsa.Encrypt(x) == rsa.Encrypt(m) <==> x % rsa.n == m
  {
    ModPowMod(x, rsa.e, rsa.n);
    DecryptEncrypt(rsa, x);
    DecryptEncrypt(rsa, m);
    DivMod(m, 0, m, rsa.n);
  }

  /** The blinded ciphertext `c * 2^e mod n`. */
  function Blinded(server: Server): (c: nat)
    requires server.rsa.n > 0
    ensures c < server.rsa.n
  {
    (server.ciphertext * server.rsa.Encrypt(2)) % server.rsa.n
  }

  /** `run`: blind, ask the server, unblind with the inverse of 2, and verify. */
  function Run(server: Server): (r: Result<(), Error>)
    requires server.rsa.n > 2 && server.rsa.n % 2 == 1
  {
    var n := server.rsa.n;
    InvModTwo(n);
    var t := InvMod(2, n).value;
    var altered := Blinded(server);
    match server.Decrypt(altered)
    case None => Err(WrongInputToOracle)
    case Some(alteredCleartext) => server.VerifySolution((alteredCleartext * t) % n)
  }

  /** The blinded ciphertext decrypts to twice the secret modulo n. */
  lemma BlindedDecrypts(server: Server)
    requires server.Valid()
    ensures server.rsa.Decrypt(Blinded(server)) == (server.cleartext * 2) % server.rsa.n
  {
    var rsa := server.rsa;
    var c, e2 := server.ciphertext, rsa.Encrypt(2);
    MulNat(c, e2);
    var product: nat := c * e2;
    assert Blinded(server) == product % rsa.n;
    assert rsa.Decrypt(product % rsa.n) == rsa.Decrypt(product) by {
      ModPowMod(product, rsa.d, rsa.n);
    }
    DecryptProduct(rsa, server.cleartext, 2);
  }

  /** The server refuses the blinded ciphertext exactly when the secret is zero: then
      2^e blinding leaves the ciphertext 0 unchanged. */
  lemma BlindedRefused(server: Server)
    requires server.Valid()
    ensures Blinded(server) == server.ciphertext <==> server.cleartext == 0
  {
    var rsa, m := server.rsa, server.cleartext;
    if m == 0 {
      ModPowZero(rsa.e, rsa.n);
      assert server.ciphertext == 0;
      assert Blinded(server) == 0 by {
        DivMod(0, 0, 0, rsa.n);
      }
    } else if Blinded(server) == server.ciphertext {
      BlindedDecrypts(server);
      DecryptEncrypt(rsa, m);
      DivMod(m, 0, m, rsa.n);
      assert (m * 2) % rsa.n == m;
      if m * 2 < rsa.n {
        DivMod(m * 2, 0, m * 2, rsa.n);
      } else {
        DivMod(m * 2, 1, m * 2 - rsa.n, rsa.n);
      }
      assert false;
    }
  }

  /** Unblinding: (2 m mod n) t mod n == m when 2 t == 1 modulo n and m < n. */
  lemma Unblind(m: nat, t: nat, n: nat)
    requires n > 1 && m < n && (2 * t) % n == 1
    ensures (((m * 2) % n) * t) % n == m
  {
    calc {
      (((m * 2) % n) * t) % n;
      { MulMod(m * 2, t, n); }
      ((m * 2) * t) % n;
      { assert (m * 2) * t == m * (2 * t); }
      (m * (2 * t)) % n;
      { MulMod(m, 2 * t, n); }
      (m * ((2 * t) % n)) % n;
      m % n;
      { DivMod(m, 0, m, n); }
      m;
    }
  }

  /** The attack recovers the secret of every server `new` can build, except the one
      whose secret is zero, which the server refuses to decrypt. */
  lemma RunRecovers(server: Server)
    requires server.Valid()
    ensures Run(server).Ok? <==> server.cleartext != 0
    ensures Run(server).Err? ==> Run(server).error == WrongInputToOracle
  {
    var n := server.rsa.n;
    InvModTwo(n);
    var t := InvMod(2, n).value;
    BlindedRefused(server);
    if server.cleartext != 0 {
      BlindedDecrypts(server);
      Unblind(server.cleartext, t, n);
    }
  }
}
