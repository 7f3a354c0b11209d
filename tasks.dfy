/**
 * Background tasks (app/tasks/tasks.py): the verification-code generator,
 * and the Celery queue that `send_verify_message.delay(email, code)` puts
 * work on. Delivery by SMTP happens in a worker and is not part of the model.
 */
module Tasks {

  /** The default `length` of create_verification_code. */
  const DefaultCodeLength := 6

  /** The `count` consecutive code points from `first` on. */
  function CharRange(first: char, count: nat): (s: string)
    requires first as int + count <= 0xD800
    ensures |s| == count
    ensures forall i :: 0 <= i < count ==> s[i] as int == first as int + i
  {
    if count == 0 then [] else CharRange(first, count - 1) + [(first as int + count - 1) as char]
  }

  /** `string.ascii_lowercase`. */
  const AsciiLowercase: string := CharRange('a', 26)
  /** `string.ascii_uppercase`. */
  const AsciiUppercase: string := CharRange('A', 26)
  /** `string.digits`. */
  const Digits: string := CharRange('0', 10)

  /** `string.ascii_letters + string.digits`, the symbols a code is drawn from. */
  const Alphabet: string := AsciiLowercase + AsciiUppercase + Digits

  predicate IsAsciiAlphanumeric(c: char)
  {
    'a' <= c <= 'z' || 'A' <= c <= 'Z' || '0' <= c <= '9'
  }

  /** A verification code of the given length. */
  predicate IsCode(code: string, length: nat)
  {
    |code| == length && forall i :: 0 <= i < |code| ==> code[i] in Alphabet
  }

  /** The code point at each position of the alphabet. */
  function AlphabetCodePoint(i: int): int
  {
    if i < 26 then 'a' as int + i else if i < 52 then 'A' as int + (i - 26) else '0' as int + (i - 52)
  }

  lemma AlphabetAt()
    ensures |Alphabet| == 62
    ensures forall i :: 0 <= i < 62 ==> Alphabet[i] as int == AlphabetCodePoint(i)
  {
    var lower, upper := AsciiLowercase, AsciiUppercase;
    assert Alphabet == lower + upper + Digits;
    forall i | 0 <= i < 62 ensures Alphabet[i] as int == AlphabetCodePoint(i) {
      if i < 26 {
        assert Alphabet[i] == lower[i];
      } else if i < 52 {
        assert Alphabet[i] == upper[i - 26];
      } else {
        assert Alphabet[i] == Digits[i - 52];
      }
    }
  }

  /**
   * The alphabet has 62 distinct symbols, exactly the ASCII letters of both
   * cases and the ten digits, in the order of `ascii_letters + digits`.
   */
  lemma AlphabetShape()
    ensures |Alphabet| == 62
    ensures Alphabet[0] == 'a' && Alphabet[25] == 'z' && Alphabet[26] == 'A'
    ensures Alphabet[51] == 'Z' && Alphabet[52] == '0' && Alphabet[61] == '9'
    ensures forall i, j :: 0 <= i < j < |Alphabet| ==> Alphabet[i] != Alphabet[j]
    ensures forall c :: c in Alphabet <==> IsAsciiAlphanumeric(c)
  {
    AlphabetAt();
    forall i, j | 0 <= i < j < |Alphabet| ensures Alphabet[i] != Alphabet[j] {
      assert AlphabetCodePoint(i) != AlphabetCodePoint(j);
    }
    forall c | c in Alphabet ensures IsAsciiAlphanumeric(c) {
      var i :| 0 <= i < |Alphabet| && Alphabet[i] == c;
      assert c as int == AlphabetCodePoint(i);
    }
    forall c | IsAsciiAlphanumeric(c) ensures c in Alphabet {
      var i := if 'a' <= c <= 'z' then c as int - 'a' as int
               else if 'A' <= c <= 'Z' then c as int - 'A' as int + 26
               else c as int - '0' as int + 52;
      assert Alphabet[i] as int == c as int;
    }
  }

  /**
   * create_verification_code(length): `length` independent choices from the
   * alphabet (none for a length of zero or below, as `range` gives). Each
   * choice stands for `secrets.choice`; no state is read or written.
   */
  method CreateVerificationCode(length: int := DefaultCodeLength) returns (code: string)
    ensures IsCode(code, if length > 0 then length else 0)
  {
    code := "";
    var i := 0;
    while i < length
      invariant 0 <= i <= (if length > 0 then length else 0)
      invariant IsCode(code, i)
    {
      assert Alphabet[0] in Alphabet;
      var symbol :| symbol in Alphabet;
      code := code + [symbol];
      i := i + 1;
    }
  }

  /** One queued `send_verify_message(email, verification_code)` task. */
  datatype Message = Message(email: string, code: string)

  /** The Celery queue; `sent` is every message enqueued so far, oldest first. */
  class MailQueue {
    var sent: seq<Message>

    constructor ()
      ensures sent == []
    {
      sent := [];
    }

    /** `send_verify_message.delay(email, code)`: enqueue and return without waiting for delivery. */
    method SendVerifyMessage(email: string, code: string)
      modifies this
      ensures sent == old(sent) + [Message(email, code)]
    {
      sent := sent + [Message(email, code)];
    }
  }
}
