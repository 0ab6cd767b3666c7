/**
 * The settings dialog's parameter derivation (`SettingsDialog.accept` and the
 * password-strength label `update_message_widget` in libs/misc.py, and the older
 * copy of both in misc.py, which behaves the same).
 *
 * The dialog's widgets become a `Form` value: the IV text, the checked mode id
 * (1 password, 2 key file), the password, the answer to the weak-password
 * question, the key-file path and what reading that file gave, and the checked
 * key-length id (1, 2, 3 for 128, 192, 256 bits). SHA-256 (section 6.2 of
 * FIPS 180-4) and the encoding of the password into bytes are parameters.
 */
module Settings {
  import opened Common

  /** A SHA-256 digest: always 32 bytes. */
  type Digest = d: Bytes | |d| == 32 witness seq(32, i => 0 as byte)

  type Hash = Bytes -> Digest

  // ---------------------------------------------------------------------------
  // Hexadecimal IV text

  /** The value of one hexadecimal digit as base-16 parsing reads it, either case. */
  function HexValue(c: char): (r: Option<nat>)
    ensures r.Some? <==> ('0' <= c <= '9' || 'a' <= c <= 'f' || 'A' <= c <= 'F')
    ensures r.Some? ==> r.value < 16
  {
    if '0' <= c <= '9' then Some(c as nat - '0' as nat)
    else if 'a' <= c <= 'f' then Some(c as nat - 'a' as nat + 10)
    else if 'A' <= c <= 'F' then Some(c as nat - 'A' as nat + 10)
    else None
  }

  predicate IsHex(s: string)
  {
    forall i :: 0 <= i < |s| ==> HexValue(s[i]).Some?
  }

  /** The lower-case hexadecimal digit of a nibble. */
  function HexDigit(v: nat): (c: char)
    requires v < 16
    ensures HexValue(c) == Some(v)
    ensures !('A' <= c <= 'F')
  {
    if v < 10 then ('0' as nat + v) as char else ('a' as nat + v - 10) as char
  }

  /** Python's `int(pair, base=16)` restricted to two hexadecimal digits. */
  function PairValue(hi: char, lo: char): (r: Option<byte>)
    ensures r.Some? <==> HexValue(hi).Some? && HexValue(lo).Some?
    ensures r.Some? ==> r.value as nat == 16 * HexValue(hi).value + HexValue(lo).value
  {
    match (HexValue(hi), HexValue(lo))
    case (Some(h), Some(l)) => Some((16 * h + l) as byte)
    case _ => None
  }

  /** Every pair of characters 2i, 2i+1 is two hexadecimal digits. */
  predicate PairsAreHex(s: string)
    requires |s| % 2 == 0
  {
    forall i :: 0 <= i < |s| / 2 ==> PairValue(s[2 * i], s[2 * i + 1]).Some?
  }

  /** A text of even length is all hexadecimal exactly when each of its pairs is. */
  lemma HexIffPairsHex(s: string)
    requires |s| % 2 == 0
    ensures IsHex(s) <==> PairsAreHex(s)
  {
    if PairsAreHex(s) {
      forall j | 0 <= j < |s|
        ensures HexValue(s[j]).Some?
      {
        var i := j / 2;
        assert j == 2 * i || j == 2 * i + 1;
        assert PairValue(s[2 * i], s[2 * i + 1]).Some?;
      }
    }
  }

  /**
   * Decodes a hexadecimal text pair by pair, as the source's comprehension over
   * `range(0, len(iv), 2)` does: byte i is the base-16 value of characters 2i
   * and 2i+1. Fails when some pair is not two hexadecimal digits.
   */
  function DecodeHex(s: string): (r: Option<Bytes>)
    requires |s| % 2 == 0
    ensures r.Some? <==> IsHex(s)
    ensures r.Some? ==> |r.value| == |s| / 2
    ensures r.Some? ==> forall i :: 0 <= i < |s| / 2 ==> Some(r.value[i]) == PairValue(s[2 * i], s[2 * i + 1])
  {
    HexIffPairsHex(s);
    if PairsAreHex(s) then
      Some(seq(|s| / 2, i requires 0 <= i < |s| / 2 => PairValue(s[2 * i], s[2 * i + 1]).value))
    else None
  }

  /** The lower-case hexadecimal text of a byte sequence, two digits per byte. */
  function EncodeHex(b: Bytes): (s: string)
    ensures |s| == 2 * |b|
  {
    seq(2 * |b|, j requires 0 <= j < 2 * |b| =>
      if j % 2 == 0 then HexDigit(b[j / 2] as nat / 16) else HexDigit(b[j / 2] as nat % 16))
  }

  /** A hexadecimal letter in lower case; any other character unchanged. */
  function LowerChar(c: char): char
  {
    if 'A' <= c <= 'F' then (c as nat - 'A' as nat + 'a' as nat) as char else c
  }

  /** Folds the upper-case hexadecimal letters of a text to lower case. */
  function LowerHex(s: string): (r: string)
    ensures |r| == |s|
  {
    seq(|s|, j requires 0 <= j < |s| => LowerChar(s[j]))
  }

  /** Decoding the hexadecimal text of any bytes gives the bytes back. */
  lemma DecodeEncodeHex(b: Bytes)
    ensures DecodeHex(EncodeHex(b)) == Some(b)
  {
    var s := EncodeHex(b);
    forall j | 0 <= j < |s|
      ensures HexValue(s[j]).Some?
    {
    }
    assert IsHex(s);
    var d := DecodeHex(s).value;
    forall i | 0 <= i < |b|
      ensures d[i] == b[i]
    {
      assert (2 * i) % 2 == 0 && (2 * i) / 2 == i;
      assert (2 * i + 1) % 2 == 1 && (2 * i + 1) / 2 == i;
      var v := b[i] as nat;
      assert v == 16 * (v / 16) + v % 16;
      assert Some(d[i]) == PairValue(s[2 * i], s[2 * i + 1]);
    }
    assert |d| == |b|;
    assert d == b;
  }

  /** The digit of a hexadecimal character's value is that character in lower case. */
  lemma HexDigitOfValue(c: char)
    requires HexValue(c).Some?
    ensures HexDigit(HexValue(c).value) == LowerChar(c)
  {
  }

  /** Encoding the decoded bytes of a hexadecimal text gives the text in lower case. */
  lemma EncodeDecodeHex(s: string)
    requires |s| % 2 == 0 && IsHex(s)
    ensures EncodeHex(DecodeHex(s).value) == LowerHex(s)
  {
    var d := DecodeHex(s).value;
    var e := EncodeHex(d);
    forall j | 0 <= j < |s|
      ensures e[j] == LowerChar(s[j])
    {
      var i := j / 2;
      assert j == 2 * i + j % 2;
      var h, l := HexValue(s[2 * i]).value, HexValue(s[2 * i + 1]).value;
      assert Some(d[i]) == PairValue(s[2 * i], s[2 * i + 1]);
      assert d[i] as nat / 16 == h && d[i] as nat % 16 == l;
      HexDigitOfValue(s[j]);
    }
  }

  // ---------------------------------------------------------------------------
  // Key length, digest input and the accept decision

  /** Key bytes for the checked key-length id: 1, 2, 3 give 16, 24, 32; any other id has none. */
  function KeyLength(id: int): (n: Option<nat>)
    ensures n.Some? <==> 1 <= id <= 3
    ensures n.Some? ==> n.value == 8 * (id + 1) && n.value <= 32
  {
    if id == 1 then Some(16) else if id == 2 then Some(24) else if id == 3 then Some(32) else None
  }

  /** The dialog's widgets at the moment OK is pressed. */
  datatype Form = Form(
    ivText: string,
    modeId: int,              // 1: password, 2: key file, anything else: neither
    password: string,
    proceedWeak: bool,        // the answer to "Weak password. Proceed?"
    keyPath: string,
    keyFile: Option<Bytes>,   // the key file's content, None when it cannot be read
    keyLenId: int)            // 1: 128, 2: 192, 3: 256 bits

  /** What gets hashed into the key. */
  datatype DigestSource = Password(text: string) | KeyFileContent(content: Bytes)

  /** Why `accept` returned without accepting (a message box or an exception). */
  datatype Rejection =
    | InvalidInitVector     // IV text is not 32 characters
    | NonHexInitVector      // a pair of the IV text is not hexadecimal
    | WeakPasswordDeclined  // short password and the user answered No
    | InvalidKeyFile        // empty key-file path or empty key file
    | KeyFileUnreadable     // the key file could not be opened or read
    | NoDigestInput         // empty password, or no mode checked
    | UnknownKeyLength      // key-length id outside 1..3

  datatype Outcome = Accepted | Rejected(reason: Rejection)

  /** The dialog's parameters after `accept`, and whether it accepted. */
  datatype Decision = Decision(initVector: Option<Bytes>, key: Option<Bytes>, outcome: Outcome)

  function SourceBytes(src: DigestSource, encode: string -> Bytes): Bytes
  {
    match src
    case Password(text) => encode(text)
    case KeyFileContent(content) => content
  }

  /**
   * The mode-dependent part of `accept`: which input gets hashed, or why there is none.
   * A short password needs a Yes; an empty password, an empty key-file path, an
   * unreadable or empty key file, or no mode at all rejects.
   */
  function DigestInput(form: Form): (r: Result<DigestSource, Rejection>)
    ensures r.Success? <==>
      || (form.modeId == 1 && form.password != "" && (|form.password| >= 6 || form.proceedWeak))
      || (form.modeId == 2 && form.keyPath != "" && form.keyFile.Some? && form.keyFile.value != [])
    ensures r.Success? && form.modeId == 1 ==> r.value == Password(form.password)
    ensures r.Success? && form.modeId == 2 ==> r.value == KeyFileContent(form.keyFile.value)
    ensures form.modeId == 1 && |form.password| < 6 && !form.proceedWeak ==> r == Failure(WeakPasswordDeclined)
    ensures form.modeId == 2 && (form.keyPath == "" || form.keyFile == Some([])) ==> r == Failure(InvalidKeyFile)
    ensures form.modeId != 1 && form.modeId != 2 ==> r == Failure(NoDigestInput)
  {
    if form.modeId == 1 then
      if |form.password| < 6 && !form.proceedWeak then Failure(WeakPasswordDeclined)
      else if form.password == "" then Failure(NoDigestInput)
      else Success(Password(form.password))
    else if form.modeId == 2 then
      if form.keyPath == "" then Failure(InvalidKeyFile)
      else if form.keyFile.None? then Failure(KeyFileUnreadable)
      else if form.keyFile.value == [] then Failure(InvalidKeyFile)
      else Success(KeyFileContent(form.keyFile.value))
    else Failure(NoDigestInput)
  }

  /**
   * What `accept` does to the dialog's IV and key. The IV is checked and written
   * first, so a rejection in the later mode checks keeps the new IV and the old key.
   */
  function AcceptSpec(initVector: Option<Bytes>, key: Option<Bytes>, form: Form, sha: Hash, encode: string -> Bytes): (d: Decision)
    ensures |form.ivText| != 32 ==> d == Decision(initVector, key, Rejected(InvalidInitVector))
    ensures |form.ivText| == 32 && !IsHex(form.ivText) ==> d == Decision(initVector, key, Rejected(NonHexInitVector))
    ensures |form.ivText| == 32 && IsHex(form.ivText) ==> d.initVector == DecodeHex(form.ivText) && |d.initVector.value| == 16
    ensures d.outcome.Rejected? ==> d.key == key
    ensures d.outcome == Accepted <==>
      |form.ivText| == 32 && IsHex(form.ivText) && DigestInput(form).Success? && KeyLength(form.keyLenId).Some?
    ensures d.outcome == Accepted ==>
      d.key == Some(sha(SourceBytes(DigestInput(form).value, encode))[..KeyLength(form.keyLenId).value])
    ensures d.outcome.Rejected? && d.outcome.reason != InvalidInitVector && d.outcome.reason != NonHexInitVector ==>
      d.initVector == DecodeHex(form.ivText)
  {
    if |form.ivText| != 32 then Decision(initVector, key, Rejected(InvalidInitVector))
    else
      match DecodeHex(form.ivText)
      case None => Decision(initVector, key, Rejected(NonHexInitVector))
      case Some(iv) =>
        match DigestInput(form)
        case Failure(reason) => Decision(Some(iv), key, Rejected(reason))
        case Success(src) =>
          match KeyLength(form.keyLenId)
          case None => Decision(Some(iv), key, Rejected(UnknownKeyLength))
          case Some(n) => Decision(Some(iv), Some(sha(SourceBytes(src, encode))[..n]), Accepted)
  }

  /**
   * For the same IV text and digest input, the 128-bit key is a prefix of the
   * 192-bit key, which is a prefix of the 256-bit key.
   */
  lemma KeyPrefix(initVector: Option<Bytes>, key: Option<Bytes>, form: Form, sha: Hash, encode: string -> Bytes, longer: int)
    requires AcceptSpec(initVector, key, form, sha, encode).outcome == Accepted
    requires form.keyLenId <= longer <= 3
    ensures var short := AcceptSpec(initVector, key, form, sha, encode).key.value;
            var long := AcceptSpec(initVector, key, form.(keyLenId := longer), sha, encode).key.value;
            |short| <= |long| && short == long[..|short|]
  {
    assert DigestInput(form.(keyLenId := longer)) == DigestInput(form);
  }

  /**
   * The widgets' initial state: an all-zero IV text, password mode with the
   * password "123456", 128-bit key, no key file.
   */
  const DefaultForm: Form := Form("00000000000000000000000000000000", 1, "123456", false, "", None, 1)

  /**
   * The first `accept`, issued by the panel on start-up with the initial widgets,
   * succeeds: the IV is 16 zero bytes and the key the first 16 digest bytes of "123456".
   */
  lemma DefaultSettingsAccepted(sha: Hash, encode: string -> Bytes)
    ensures AcceptSpec(None, None, DefaultForm, sha, encode)
         == Decision(Some(seq(16, i => 0 as byte)), Some(sha(encode("123456"))[..16]), Accepted)
  {
    ZeroIvText(DefaultForm.ivText);
    assert DigestInput(DefaultForm) == Success(Password("123456"));
  }

  /** A text of 32 zero digits decodes to 16 zero bytes. */
  lemma ZeroIvText(text: string)
    requires |text| == 32 && forall i :: 0 <= i < |text| ==> text[i] == '0'
    ensures IsHex(text) && DecodeHex(text) == Some(seq(16, i => 0 as byte))
  {
    assert IsHex(text);
    var b := DecodeHex(text).value;
    forall i | 0 <= i < 16
      ensures b[i] == 0
    {
      assert text[2 * i] == '0' && text[2 * i + 1] == '0';
    }
    assert b == seq(16, i => 0 as byte);
  }

  // ---------------------------------------------------------------------------
  // The dialog

  /** The dialog's parameter fields, which `accept` assigns in place. */
  class SettingsDialog {
    /** None until the first accepted IV: the source creates the attribute there. */
    var initVector: Option<Bytes>
    var key: Option<Bytes>

    ghost predicate Valid()
      reads this
    {
      && (initVector.Some? ==> |initVector.value| == 16)
      && (key.Some? ==> |key.value| == 16 || |key.value| == 24 || |key.value| == 32)
    }

    constructor ()
      ensures Valid() && initVector == None && key == None
    {
      initVector := None;
      key := None;
    }

    /** OK pressed: validates the form and updates the IV and key in the source's order. */
    method Accept(form: Form, sha: Hash, encode: string -> Bytes) returns (outcome: Outcome)
      requires Valid()
      modifies this
      ensures Valid()
      ensures Decision(initVector, key, outcome) == AcceptSpec(old(initVector), old(key), form, sha, encode)
    {
      var iv := form.ivText;
      if |iv| != 32 {
        return Rejected(InvalidInitVector);
      }
      var decoded := DecodeHex(iv);
      if decoded.None? {
        return Rejected(NonHexInitVector);
      }
      initVector := decoded;

      var toDigest: Option<DigestSource> := None;
      if form.modeId == 1 {
        if |form.password| < 6 && !form.proceedWeak {
          return Rejected(WeakPasswordDeclined);
        }
        toDigest := Some(Password(form.password));
      }
      if form.modeId == 2 {
        if form.keyPath == "" {
          return Rejected(InvalidKeyFile);
        }
        if form.keyFile.None? {
          return Rejected(KeyFileUnreadable);
        }
        toDigest := Some(KeyFileContent(form.keyFile.value));
        if form.keyFile.value == [] {
          return Rejected(InvalidKeyFile);
        }
      }
      if toDigest == None || toDigest == Some(Password("")) || toDigest == Some(KeyFileContent([])) {
        return Rejected(NoDigestInput);
      }
      var digest := sha(SourceBytes(toDigest.value, encode));
      var n := KeyLength(form.keyLenId);
      if n.None? {
        return Rejected(UnknownKeyLength);
      }
      key := Some(digest[..n.value]);
      return Accepted;
    }
  }

  // ---------------------------------------------------------------------------
  // Password strength label

  datatype Strength = Weak | Acceptable | Strong

  /** The label shown beside the password as it is typed. */
  function PasswordStrength(password: string): (r: Strength)
    ensures r == Strong <==> |password| > 10
    ensures r == Acceptable <==> 5 < |password| <= 10
    ensures r == Weak <==> |password| <= 5
  {
    if |password| > 10 then Strong
    else if |password| > 5 then Acceptable
    else Weak
  }

  function Rank(s: Strength): nat
  {
    match s
    case Weak => 0
    case Acceptable => 1
    case Strong => 2
  }

  /** A longer password never gets a lower label. */
  lemma StrengthMonotone(a: string, b: string)
    requires |a| <= |b|
    ensures Rank(PasswordStrength(a)) <= Rank(PasswordStrength(b))
  {
  }

  /**
   * The label reads "Weak" exactly when `accept` asks about a weak password:
   * with a valid IV and the answer No, a password is rejected as weak if and
   * only if its label is Weak.
   */
  lemma WeakLabelExactlyWhenAsked(initVector: Option<Bytes>, key: Option<Bytes>, form: Form, sha: Hash, encode: string -> Bytes)
    requires form.modeId == 1 && !form.proceedWeak
    requires |form.ivText| == 32 && IsHex(form.ivText)
    ensures AcceptSpec(initVector, key, form, sha, encode).outcome == Rejected(WeakPasswordDeclined)
        <==> PasswordStrength(form.password) == Weak
  {
  }
}
