/** generate_password: fills a caller-owned buffer with `length` characters
    picked from the charset by successive `rand()` draws, then terminates it. */
module Generator {
  import Charset
  import Rand
  import CStrings

  /** `rand() % (int)(sizeof(charset) - 1)` with C's remainder, which
      truncates toward zero and so is negative for a negative left operand. */
  function Key(r: int): (k: int)
    ensures r >= 0 ==> 0 <= k < Charset.Modulus && k == r % Charset.Modulus
    ensures r < 0 ==> -Charset.Modulus < k <= 0
  {
    if r >= 0 then r % Charset.Modulus else -((-r) % Charset.Modulus)
  }

  /** Only the non-negativity of `rand()` keeps the index inside `charset`: a
      draw of -1 would index one cell before it. */
  lemma NegativeDrawLeavesCharset()
    ensures Key(-1) == -1
  {
  }

  /** `charset[key]` for one draw: never the terminator, always a letter or
      digit, and exactly the alphabet character at `r % 62`. */
  function CharFor(r: nat): (c: char)
    ensures Charset.IsAlphanumeric(c) && c != '\0'
    ensures c == Charset.Alphabet[r % Charset.Modulus]
  {
    Charset.AlphabetLayout();
    Charset.Buffer[Key(r)]
  }

  /** The password text a sequence of draws produces, one character per draw. */
  function Password(draws: seq<nat>): (p: seq<char>)
    ensures |p| == |draws|
    ensures forall i :: 0 <= i < |p| ==> Charset.IsAlphanumeric(p[i])
  {
    if draws == [] then []
    else Password(draws[..|draws| - 1]) + [CharFor(draws[|draws| - 1])]
  }

  /** Position `i` of the password is decided by draw `i` alone, through its
      residue modulo 62. */
  lemma {:induction false} PasswordAt(draws: seq<nat>, i: int)
    requires 0 <= i < |draws|
    ensures Password(draws)[i] == Charset.Alphabet[draws[i] % Charset.Modulus]
  {
    var n := |draws|;
    if i < n - 1 {
      assert draws[..n - 1][i] == draws[i];
      PasswordAt(draws[..n - 1], i);
    }
  }

  /** Drawing one more value appends exactly one character. */
  lemma PasswordSnoc(draws: seq<nat>, r: nat)
    ensures Password(draws + [r]) == Password(draws) + [CharFor(r)]
  {
    assert (draws + [r])[..|draws|] == draws;
  }

  /** The charset positions the draws select, `Key(r)` for each draw. */
  function Keys(draws: seq<nat>): (ks: seq<nat>)
    ensures |ks| == |draws|
    ensures forall i :: 0 <= i < |ks| ==> ks[i] < Charset.Modulus
  {
    seq(|draws|, i requires 0 <= i < |draws| => Key(draws[i]) as nat)
  }

  /** Reads the charset positions back out of a password. */
  function Positions(p: seq<char>): (ks: seq<nat>)
    requires forall i :: 0 <= i < |p| ==> Charset.IsAlphanumeric(p[i])
    ensures |ks| == |p|
    ensures forall i :: 0 <= i < |p| ==> ks[i] < Charset.Modulus && Charset.Alphabet[ks[i]] == p[i]
  {
    seq(|p|, i requires 0 <= i < |p| => Charset.IndexOf(p[i]))
  }

  /** No information beyond `r % 62` is lost: the password gives back
      exactly the residues of the draws. */
  lemma PositionsOfPassword(draws: seq<nat>)
    ensures Positions(Password(draws)) == Keys(draws)
  {
    var p := Password(draws);
    forall i | 0 <= i < |draws| ensures Positions(p)[i] == Keys(draws)[i] {
      PasswordAt(draws, i);
      Charset.IndexOfAlphabet(draws[i] % Charset.Modulus);
    }
  }

  /** Two draw sequences give the same password exactly when they agree in
      length and in every residue modulo 62. */
  lemma PasswordEqualIff(d1: seq<nat>, d2: seq<nat>)
    ensures Password(d1) == Password(d2) <==> Keys(d1) == Keys(d2)
  {
    if Password(d1) == Password(d2) {
      PositionsOfPassword(d1);
      PositionsOfPassword(d2);
    }
    if Keys(d1) == Keys(d2) {
      forall i | 0 <= i < |d1| ensures Password(d1)[i] == Password(d2)[i] {
        assert Keys(d1)[i] == Keys(d2)[i];
        PasswordAt(d1, i);
        PasswordAt(d2, i);
      }
    }
  }

  /** The password never contains the terminator, so it followed by a NUL
      reads back as a C string of exactly `|draws|` characters. */
  lemma PasswordIsCString(draws: seq<nat>, after: seq<char>)
    ensures CStrings.CStringOf(Password(draws) + ['\0'] + after) == CStrings.Some(Password(draws))
    ensures |Password(draws)| == |draws|
  {
    var p := Password(draws);
    assert '\0' !in p by {
      forall i | 0 <= i < |p| ensures p[i] != '\0' {
      }
    }
    CStrings.CStringOfTerminated(p, after);
  }

  /** generate_password(password, length): writes `length` charset characters
      chosen by the next `length` draws of `rand()` into cells 0..length-1,
      then a NUL into cell `length`; no other cell is touched. */
  method GeneratePassword(password: array<char>, length: int, rng: Rand.RandSource)
    requires 0 <= length < password.Length
    requires length <= |rng.pending|
    modifies password, rng
    ensures password[..length] == Password(old(rng.pending)[..length])
    ensures password[length] == '\0'
    ensures forall k :: length < k < password.Length ==> password[k] == old(password[k])
    ensures rng.pending == old(rng.pending)[length..]
    ensures CStrings.CStringOf(password[..]) == CStrings.Some(password[..length])
  {
    ghost var stream := rng.pending;
    for i := 0 to length
      invariant password[..i] == Password(stream[..i])
      invariant rng.pending == stream[i..]
      invariant forall k :: i <= k < password.Length ==> password[k] == old(password[k])
    {
      var r := rng.Next();
      var key := Key(r);
      password[i] := Charset.Buffer[key];
      assert stream[..i + 1] == stream[..i] + [r];
      PasswordSnoc(stream[..i], r);
      assert password[..i + 1] == password[..i] + [password[i]];
    }
    password[length] := '\0';
    assert password[..length] == Password(stream[..length]);
    assert password[..] == password[..length] + ['\0'] + password[length + 1..];
    PasswordIsCString(stream[..length], password[length + 1..]);
  }
}
