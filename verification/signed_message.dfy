/**
  The text a wallet signs for a transfer, and the EIP-191 (version 0x45) preimage that is
  hashed for it.
 */
module SignedMessage {
  import opened Bytes
  import opened Sequences
  import opened Text

  /** The fields a signature is meant to fix. */
  datatype Intent = Intent(from: Text, to: Text, amount: u64, nonce: u64)

  const SENDER: Text := "{\"sender\":\""
  const RECEIVER: Text := "\",\"receiver\":\""
  const AMOUNT: Text := "\",\"amount\":\""
  const NONCE: Text := "\",\"nonce\":\""
  const END: Text := "\"}"

  function TransactionMessage(t: Intent): Text {
    SENDER + t.from + RECEIVER + t.to + AMOUNT + Dec(t.amount) + NONCE + Dec(t.nonce) + END
  }

  const PREFIX: Text := "\U{19}Ethereum Signed Message:\n"

  function Preimage(message: Text): seq<byte> {
    BytesOf(PREFIX + Dec(|message|)) + BytesOf(message)
  }

  function MessageHash(keccak: Hash, t: Intent): Digest {
    keccak(Preimage(TransactionMessage(t)))
  }

  /**
    No separator follows the decimal length, yet no two messages share a preimage: the length
    plus its digit count strictly increases, so equal preimages have equal lengths.
   */
  lemma PreimageInjective(m: Text, n: Text)
    requires Preimage(m) == Preimage(n)
    ensures m == n
  {
    if |m| <= |n| {
      DecLengthMonotone(|m|, |n|);
    } else {
      DecLengthMonotone(|n|, |m|);
    }
    SplitConcat(BytesOf(PREFIX + Dec(|m|)), BytesOf(m), BytesOf(PREFIX + Dec(|n|)), BytesOf(n));
    BytesOfInjective(m, n);
  }

  ghost predicate QuoteFree(t: Intent) {
    QUOTE !in t.from && QUOTE !in t.to
  }

  /** Two texts that start with quote-free names and then a quote start with the same name. */
  lemma FirstQuote(a: Text, x: Text, b: Text, y: Text)
    requires QUOTE !in a && QUOTE !in b
    requires |x| > 0 && x[0] == QUOTE && |y| > 0 && y[0] == QUOTE
    requires a + x == b + y
    ensures a == b && x == y
  {
    var s := a + x;
    assert s[|a|] == QUOTE && s[|b|] == QUOTE;
    assert forall i | 0 <= i < |a| :: s[i] == a[i];
    assert forall i | 0 <= i < |b| :: s[i] == b[i];
    assert |a| == |b|;
    SplitConcat(a, x, b, y);
  }

  /** Two texts that end with a quote and then quote-free text end with the same text. */
  lemma LastQuote(a: Text, x: Text, b: Text, y: Text)
    requires QUOTE !in x && QUOTE !in y
    requires |a| > 0 && a[|a| - 1] == QUOTE && |b| > 0 && b[|b| - 1] == QUOTE
    requires a + x == b + y
    ensures a == b && x == y
  {
    var s := a + x;
    assert s[|a| - 1] == QUOTE && s[|b| - 1] == QUOTE;
    assert forall i | |a| <= i < |s| :: s[i] == x[i - |a|];
    assert forall i | |b| <= i < |s| :: s[i] == y[i - |b|];
    assert |a| == |b|;
    SplitConcat(a, x, b, y);
  }

  /** A message up to its last number: a prefix that ends with a quote. */
  lemma LastNumber(a: Text, m: nat, x: Text, b: Text, n: nat)
    requires |x| > 0 && x[|x| - 1] == QUOTE
    requires a + x + Dec(m) == b + x + Dec(n)
    ensures a == b && m == n
  {
    LastQuote(a + x, Dec(m), b + x, Dec(n));
    DecInjective(m, n);
    assert |a| == |b|;
    SplitConcat(a, x, b, x);
  }

  /** The two names and what stands between them. */
  function Names(t: Intent): Text { t.from + RECEIVER + t.to }

  lemma MessageLayout(t: Intent)
    ensures TransactionMessage(t) == SENDER + Names(t) + AMOUNT + Dec(t.amount) + NONCE + Dec(t.nonce) + END
  {
    assert SENDER + t.from + RECEIVER + t.to == SENDER + Names(t);
  }

  /** The printed message fixes both numbers, and the names with their separator as one text. */
  lemma MessageFixesNames(t: Intent, u: Intent)
    ensures TransactionMessage(t) == TransactionMessage(u) <==>
            Names(t) == Names(u) && t.amount == u.amount && t.nonce == u.nonce
  {
    MessageLayout(t);
    MessageLayout(u);
    if TransactionMessage(t) == TransactionMessage(u) {
      var a, b := SENDER + Names(t) + AMOUNT + Dec(t.amount), SENDER + Names(u) + AMOUNT + Dec(u.amount);
      assert |a + NONCE + Dec(t.nonce)| == |b + NONCE + Dec(u.nonce)|;
      SplitConcat<ascii>(a + NONCE + Dec(t.nonce), END, b + NONCE + Dec(u.nonce), END);
      LastNumber(a, t.nonce, NONCE, b, u.nonce);
      LastNumber(SENDER + Names(t), t.amount, AMOUNT, SENDER + Names(u), u.amount);
      SplitConcat<ascii>(SENDER, Names(t), SENDER, Names(u));
    }
  }

  /** The printed message fixes all four fields of transfers between quote-free names. */
  lemma MessageInjective(t: Intent, u: Intent)
    requires QuoteFree(t) && QuoteFree(u)
    requires TransactionMessage(t) == TransactionMessage(u)
    ensures t == u
  {
    MessageFixesNames(t, u);
    assert t.from + (RECEIVER + t.to) == Names(t) == Names(u) == u.from + (RECEIVER + u.to);
    FirstQuote(t.from, RECEIVER + t.to, u.from, RECEIVER + u.to);
    SplitConcat<ascii>(RECEIVER, t.to, RECEIVER, u.to);
  }

  /** The separator between sender and receiver can be read at position `k`. */
  predicate SeparatorAt(s: Text, k: nat) {
    k + |RECEIVER| <= |s| && s[k..k + |RECEIVER|] == RECEIVER
  }

  lemma CutAt(s: Text, k: nat)
    requires SeparatorAt(s, k)
    ensures s[..k] + RECEIVER + s[k + |RECEIVER|..] == s
  {
  }

  lemma CutHere(t: Intent)
    ensures SeparatorAt(Names(t), |t.from|)
  {
  }

  /**
    Exactly when a message stands for one transfer: another one prints alike if and only if the
    separator can be read at a second place. It may overlap the first, so a name that starts or
    ends with a piece of it suffices.
   */
  lemma AmbiguousIff(t: Intent)
    ensures (exists u: Intent :: u != t && TransactionMessage(u) == TransactionMessage(t)) <==>
            exists k: nat :: k != |t.from| && SeparatorAt(Names(t), k)
  {
    if u: Intent :| u != t && TransactionMessage(u) == TransactionMessage(t) {
      MessageFixesNames(u, t);
      CutHere(u);
      if |u.from| == |t.from| {
        SplitConcat(u.from + RECEIVER, u.to, t.from + RECEIVER, t.to);
        SplitConcat<ascii>(u.from, RECEIVER, t.from, RECEIVER);
      }
    }
    if k: nat :| k != |t.from| && SeparatorAt(Names(t), k) {
      CutAt(Names(t), k);
      var u := Intent(Names(t)[..k], Names(t)[k + |RECEIVER|..], t.amount, t.nonce);
      MessageFixesNames(u, t);
    }
  }

  lemma Overlap(a: Text, c: Text)
    ensures a + RECEIVER + (RECEIVER[1..] + c) == a + RECEIVER[..|RECEIVER| - 1] + RECEIVER + c
  {
    var n := |RECEIVER| - 1;
    assert RECEIVER[0] == RECEIVER[n] == QUOTE;
    assert RECEIVER == RECEIVER[..n] + [QUOTE] && RECEIVER == [QUOTE] + RECEIVER[1..];
    assert RECEIVER + (RECEIVER[1..] + c) == RECEIVER[..n] + [QUOTE] + RECEIVER[1..] + c
        == RECEIVER[..n] + RECEIVER + c;
  }

  /** No name need contain the whole separator: it begins and ends with the same quote. */
  lemma OverlapIsAmbiguous(a: Text, c: Text, amount: u64, nonce: u64)
    ensures var t := Intent(a, RECEIVER[1..] + c, amount, nonce);
            var u := Intent(a + RECEIVER[..|RECEIVER| - 1], c, amount, nonce);
            t != u && TransactionMessage(t) == TransactionMessage(u)
  {
    var t := Intent(a, RECEIVER[1..] + c, amount, nonce);
    var u := Intent(a + RECEIVER[..|RECEIVER| - 1], c, amount, nonce);
    assert |t.from| != |u.from|;
    Overlap(a, c);
    MessageFixesNames(t, u);
  }

  // ----- Reading a message -----

  /** The pieces of a text between its quotes. */
  function Cut(s: Text): (pieces: seq<Text>)
    ensures pieces != []
  {
    if s == [] then [[]]
    else
      var rest := Cut(s[1..]);
      if s[0] == QUOTE then [[]] + rest else [[s[0]] + rest[0]] + rest[1..]
  }

  lemma {:induction false} CutPiece(a: Text, rest: Text)
    requires QUOTE !in a
    ensures Cut(a + [QUOTE] + rest) == [a] + Cut(rest)
  {
    var s := a + [QUOTE] + rest;
    if a == [] {
      assert s[1..] == rest;
    } else {
      CutPiece(a[1..], rest);
      assert s[1..] == a[1..] + [QUOTE] + rest;
      assert [a[0]] + a[1..] == a;
    }
  }

  lemma {:induction false} CutEnd(a: Text)
    requires QUOTE !in a
    ensures Cut(a) == [a]
  {
    if a != [] {
      CutEnd(a[1..]);
      assert [a[0]] + a[1..] == a;
    }
  }

  /** One named value, after `opening` and before `rest`. */
  function Field(opening: Text, name: Text, value: Text, rest: Text): Text {
    opening + [QUOTE] + (name + [QUOTE] + (":" + [QUOTE] + (value + [QUOTE] + rest)))
  }

  lemma CutField(opening: Text, name: Text, value: Text, rest: Text)
    requires QUOTE !in opening && QUOTE !in name && QUOTE !in value
    ensures Cut(Field(opening, name, value, rest)) == [opening, name, ":", value] + Cut(rest)
  {
    CutPiece(value, rest);
    CutPiece(":", value + [QUOTE] + rest);
    CutPiece(name, ":" + [QUOTE] + (value + [QUOTE] + rest));
    CutPiece(opening, name + [QUOTE] + (":" + [QUOTE] + (value + [QUOTE] + rest)));
    FourThen(opening, name, ":", value, Cut(rest));
  }

  lemma FourThen<T>(a: T, b: T, c: T, d: T, rest: seq<T>)
    ensures [a] + ([b] + ([c] + ([d] + rest))) == [a, b, c, d] + rest
  {
  }

  lemma Flat<T>(a: seq<T>, b: seq<T>, c: seq<T>, d: seq<T>, e: seq<T>)
    ensures a + (b + (c + (d + e))) == a + b + c + d + e
  {
  }

  lemma Separators()
    ensures SENDER == "{" + [QUOTE] + "sender" + [QUOTE] + ":" + [QUOTE]
    ensures RECEIVER == [QUOTE] + "," + [QUOTE] + "receiver" + [QUOTE] + ":" + [QUOTE]
    ensures AMOUNT == [QUOTE] + "," + [QUOTE] + "amount" + [QUOTE] + ":" + [QUOTE]
    ensures NONCE == [QUOTE] + "," + [QUOTE] + "nonce" + [QUOTE] + ":" + [QUOTE]
    ensures END == [QUOTE] + "}"
  {
  }

  lemma FirstField(separator: Text, opening: Text, name: Text, value: Text, rest: Text)
    requires separator == opening + [QUOTE] + name + [QUOTE] + ":" + [QUOTE]
    ensures separator + value + ([QUOTE] + rest) == Field(opening, name, value, rest)
  {
  }

  lemma NextField(separator: Text, opening: Text, name: Text, value: Text, rest: Text)
    requires separator == [QUOTE] + opening + [QUOTE] + name + [QUOTE] + ":" + [QUOTE]
    ensures separator + value + ([QUOTE] + rest) == [QUOTE] + Field(opening, name, value, rest)
  {
  }

  lemma Regroup<T>(a: seq<T>, b: seq<T>, c: seq<T>, d: seq<T>, e: seq<T>, f: seq<T>, g: seq<T>, h: seq<T>, i: seq<T>)
    ensures a + b + c + d + e + f + g + h + i == a + b + (c + d + (e + f + (g + h + i)))
  {
  }

  lemma MessageFields(t: Intent)
    ensures TransactionMessage(t) ==
            Field("{", "sender", t.from, Field(",", "receiver", t.to,
              Field(",", "amount", Dec(t.amount), Field(",", "nonce", Dec(t.nonce), "}"))))
  {
    Separators();
    Regroup<ascii>(SENDER, t.from, RECEIVER, t.to, AMOUNT, Dec(t.amount), NONCE, Dec(t.nonce), END);
    var nonce := Field(",", "nonce", Dec(t.nonce), "}");
    var amount := Field(",", "amount", Dec(t.amount), nonce);
    var receiver := Field(",", "receiver", t.to, amount);
    NextField(NONCE, ",", "nonce", Dec(t.nonce), "}");
    NextField(AMOUNT, ",", "amount", Dec(t.amount), nonce);
    NextField(RECEIVER, ",", "receiver", t.to, amount);
    FirstField(SENDER, "{", "sender", t.from, receiver);
  }

  /**
    What a wallet shows: cut at its quotes, the message is four names with their values, sender,
    receiver, amount and nonce, the numbers in decimal.
   */
  lemma MessageReads(t: Intent)
    requires QuoteFree(t)
    ensures Cut(TransactionMessage(t)) ==
            ["{", "sender", ":", t.from] + [",", "receiver", ":", t.to]
            + [",", "amount", ":", Dec(t.amount)] + [",", "nonce", ":", Dec(t.nonce)] + ["}"]
  {
    MessageFields(t);
    var nonce := Field(",", "nonce", Dec(t.nonce), "}");
    var amount := Field(",", "amount", Dec(t.amount), nonce);
    var receiver := Field(",", "receiver", t.to, amount);
    CutEnd("}");
    CutField(",", "nonce", Dec(t.nonce), "}");
    CutField(",", "amount", Dec(t.amount), nonce);
    CutField(",", "receiver", t.to, amount);
    CutField("{", "sender", t.from, receiver);
    Flat<Text>(["{", "sender", ":", t.from], [",", "receiver", ":", t.to],
               [",", "amount", ":", Dec(t.amount)], [",", "nonce", ":", Dec(t.nonce)], ["}"]);
  }

  const VERSION_45: Text := "Ethereum Signed Message:\n"

  /**
    The hashed bytes: 0x19, the fixed text of version 0x45 (`E`) of EIP-191, the length of the
    message in decimal, and the message.
   */
  lemma PreimageReads(m: Text)
    ensures Preimage(m) == [0x19] + BytesOf(VERSION_45) + BytesOf(Dec(|m|)) + BytesOf(m)
  {
    PrefixBytes();
    BytesOfConcat(PREFIX, Dec(|m|));
  }

  lemma VersionByte(m: Text)
    ensures Preimage(m)[0] == 0x19 && Preimage(m)[1] == 0x45
  {
    PrefixStarts();
  }

  lemma PrefixStarts()
    ensures PREFIX[0] as int == 0x19 && PREFIX[1] as int == 0x45
  {
  }

  lemma PrefixBytes()
    ensures BytesOf(PREFIX) == [0x19] + BytesOf(VERSION_45)
  {
    PrefixIs();
    BytesOfConcat([PREFIX[0]], VERSION_45);
    OneByte(PREFIX[0]);
  }

  lemma OneByte(c: ascii)
    ensures BytesOf([c]) == [c as int]
  {
  }

  lemma PrefixIs()
    ensures PREFIX == [PREFIX[0]] + VERSION_45 && PREFIX[0] as int == 0x19
  {
  }

  lemma BytesOfConcat(s: Text, t: Text)
    ensures BytesOf(s + t) == BytesOf(s) + BytesOf(t)
  {
  }
}
