/** Redis key names: the escaping of user ids, and the keys built around them. */
module SessionKeys {
  import opened Wrappers
  import opened Crc16
  import opened Sequences

  type Byte = b: int | 0 <= b < 0x100

  // ---------------------------------------------------------------- escaping

  /** [A-Za-z0-9._-] */
  predicate IsSafe(u: Unit) {
    0x30 <= u <= 0x39 || 0x41 <= u <= 0x5A || 0x61 <= u <= 0x7A || u == 0x2E || u == 0x5F || u == 0x2D
  }

  predicate IsSurrogate(u: Unit) {
    0xD800 <= u <= 0xDFFF
  }

  /** A code unit on its own in UTF-8; a surrogate half is not a character and becomes U+FFFD. */
  function Utf8(u: Unit): seq<Byte> {
    if u < 0x80 then [u]
    else if u < 0x800 then [0xC0 + u / 64, 0x80 + u % 64]
    else if IsSurrogate(u) then [0xEF, 0xBF, 0xBD]
    else [0xE0 + u / 4096, 0x80 + u / 64 % 64, 0x80 + u % 64]
  }

  const PERCENT: Unit := 0x25

  function HexDigit(n: int): Unit
    requires 0 <= n < 16
  {
    if n < 10 then 0x30 + n else 0x61 + n - 10
  }

  function Escape(b: Byte): Text {
    [PERCENT, HexDigit(b / 16), HexDigit(b % 16)]
  }

  function EncodeUnit(u: Unit): Text {
    if IsSafe(u) then [u] else FlatMap(Escape, Utf8(u))
  }

  function Encode(id: Text): Text {
    FlatMap(EncodeUnit, id)
  }

  predicate IsUserId(id: Text) {
    1 <= |id| <= 512
  }

  /** The body of the loop over the id. */
  method AppendUnit(out: Text, ch: Unit) returns (r: Text)
    ensures r == out + EncodeUnit(ch)
  {
    r := out;
    if IsSafe(ch) {
      r := r + [ch];
    } else {
      var bytes := Utf8(ch);
      for k := 0 to |bytes|
        invariant r == out + FlatMap(Escape, bytes[..k])
      {
        FlatMapLast(Escape, bytes[..k], bytes[k]);
        assert bytes[..k + 1] == bytes[..k] + [bytes[k]];
        r := r + Escape(bytes[k]);
      }
      assert bytes[..|bytes|] == bytes;
    }
  }

  /** None stands for the configuration error. */
  method EncodeUserId(id: Text) returns (r: Option<Text>)
    ensures r == if IsUserId(id) then Some(Encode(id)) else None
  {
    if |id| == 0 || |id| > 512 {
      return None;
    }
    var out: Text := [];
    for i := 0 to |id|
      invariant out == Encode(id[..i])
    {
      FlatMapLast(EncodeUnit, id[..i], id[i]);
      assert id[..i + 1] == id[..i] + [id[i]];
      out := AppendUnit(out, id[i]);
    }
    assert id[..|id|] == id;
    return Some(out);
  }

  // ---------------------------------------------------------------- reading it back

  function HexValue(u: Unit): int {
    if u <= 0x39 then u - 0x30 else u - 0x57
  }

  /** The byte escaped at position i. */
  function ByteAt(out: Text, i: nat): int {
    if i + 2 < |out| then HexValue(out[i + 1]) * 16 + HexValue(out[i + 2]) else 0
  }

  function Clamped(u: int): Unit {
    if 0 <= u < 0x1_0000 then u else 0
  }

  /** The code unit that starts the text, and how much of the text it takes. */
  function First(out: Text): (r: (Unit, nat))
    requires out != []
    ensures r.1 >= 1
  {
    var b := ByteAt(out, 0);
    if out[0] != PERCENT then (out[0], 1)
    else if b < 0x80 then (Clamped(b), 3)
    else if b < 0xE0 then (Clamped((b - 0xC0) * 64 + ByteAt(out, 3) - 0x80), 6)
    else (Clamped((b - 0xE0) * 4096 + (ByteAt(out, 3) - 0x80) * 64 + ByteAt(out, 6) - 0x80), 9)
  }

  function Decode(out: Text): Text
    decreases |out|
  {
    if out == [] then []
    else
      var (u, used) := First(out);
      [u] + Decode(out[Min(used, |out|)..])
  }

  function Scrub(u: Unit): Unit {
    if IsSurrogate(u) then 0xFFFD else u
  }

  function Scrubbed(id: Text): Text {
    Map(Scrub, id)
  }

  lemma HexRoundTrip(b: Byte)
    ensures HexValue(HexDigit(b / 16)) * 16 + HexValue(HexDigit(b % 16)) == b
  {
  }

  lemma EscapeOne(a: Byte)
    ensures FlatMap(Escape, [a]) == Escape(a)
  {
    FlatMapFirst(Escape, a, []);
    assert [a] + [] == [a];
  }

  lemma EscapeTwo(a: Byte, b: Byte)
    ensures FlatMap(Escape, [a, b]) == Escape(a) + Escape(b)
  {
    EscapeOne(a);
    FlatMapLast(Escape, [a], b);
    assert [a] + [b] == [a, b];
  }

  lemma EscapeThree(a: Byte, b: Byte, c: Byte)
    ensures FlatMap(Escape, [a, b, c]) == Escape(a) + Escape(b) + Escape(c)
  {
    EscapeTwo(a, b);
    FlatMapLast(Escape, [a, b], c);
    assert [a, b] + [c] == [a, b, c];
  }

  lemma ByteAtEscape(out: Text, before: Text, b: Byte, rest: Text)
    requires out == before + Escape(b) + rest
    ensures ByteAt(out, |before|) == b
  {
    HexRoundTrip(b);
    assert out[|before| + 1] == HexDigit(b / 16) && out[|before| + 2] == HexDigit(b % 16);
  }

  lemma FirstOfOneByte(u: Unit, rest: Text)
    requires u < 0x80 && !IsSafe(u)
    ensures First(EncodeUnit(u) + rest) == (u, |EncodeUnit(u)|)
  {
    EscapeOne(u);
    var out := EncodeUnit(u) + rest;
    ByteAtEscape(out, [], u, rest);
  }

  lemma FirstOfTwoBytes(u: Unit, rest: Text)
    requires 0x80 <= u < 0x800
    ensures First(EncodeUnit(u) + rest) == (u, |EncodeUnit(u)|)
  {
    var a, b := 0xC0 + u / 64, 0x80 + u % 64;
    EscapeTwo(a, b);
    var out := EncodeUnit(u) + rest;
    ByteAtEscape(out, [], a, Escape(b) + rest);
    ByteAtEscape(out, Escape(a), b, rest);
  }

  lemma ThreeByteSum(u: Unit)
    ensures u / 4096 * 4096 + u / 64 % 64 * 64 + u % 64 == u
  {
  }

  lemma FirstOfThreeBytes(u: Unit, rest: Text)
    requires u >= 0x800
    ensures First(EncodeUnit(u) + rest) == (Scrub(u), |EncodeUnit(u)|)
  {
    var bytes := Utf8(u);
    EscapeThree(bytes[0], bytes[1], bytes[2]);
    assert bytes == [bytes[0], bytes[1], bytes[2]];
    var out := EncodeUnit(u) + rest;
    ByteAtEscape(out, [], bytes[0], Escape(bytes[1]) + Escape(bytes[2]) + rest);
    ByteAtEscape(out, Escape(bytes[0]), bytes[1], Escape(bytes[2]) + rest);
    ByteAtEscape(out, Escape(bytes[0]) + Escape(bytes[1]), bytes[2], rest);
    ThreeByteSum(u);
  }

  /** The start of an encoding tells which code unit was encoded, and where the next one starts. */
  lemma DecodeUnit(u: Unit, rest: Text)
    ensures Decode(EncodeUnit(u) + rest) == [Scrub(u)] + Decode(rest)
  {
    if !IsSafe(u) {
      if u < 0x80 {
        FirstOfOneByte(u, rest);
      } else if u < 0x800 {
        FirstOfTwoBytes(u, rest);
      } else {
        FirstOfThreeBytes(u, rest);
      }
    }
    assert (EncodeUnit(u) + rest)[|EncodeUnit(u)|..] == rest;
  }

  /** The escaping can be read back, up to the surrogate halves that it replaces. */
  lemma DecodesToScrubbed(id: Text)
    ensures Decode(Encode(id)) == Scrubbed(id)
  {
    forall u, rest ensures Decode(EncodeUnit(u) + rest) == [Scrub(u)] + Decode(rest) {
      DecodeUnit(u, rest);
    }
    ReadBack(EncodeUnit, Scrub, Decode, id);
  }

  lemma EncodesScrubbed(id: Text)
    ensures Encode(Scrubbed(id)) == Encode(id)
  {
    forall u ensures EncodeUnit(Scrub(u)) == EncodeUnit(u) {
      ScrubKeepsEncoding(u);
    }
    FlatMapThrough(EncodeUnit, Scrub, id);
  }

  lemma ScrubKeepsEncoding(u: Unit)
    ensures EncodeUnit(Scrub(u)) == EncodeUnit(u)
  {
  }

  /** Two ids share an encoding exactly when they differ at most in their surrogate halves. */
  lemma CollisionsExactly(a: Text, b: Text)
    ensures Encode(a) == Encode(b) <==> Scrubbed(a) == Scrubbed(b)
  {
    DecodesToScrubbed(a);
    DecodesToScrubbed(b);
    EncodesScrubbed(a);
    EncodesScrubbed(b);
  }

  predicate NoSurrogates(id: Text) {
    forall i | 0 <= i < |id| :: !IsSurrogate(id[i])
  }

  lemma InjectiveWithoutSurrogates(a: Text, b: Text)
    requires NoSurrogates(a) && NoSurrogates(b)
    ensures Encode(a) == Encode(b) <==> a == b
  {
    CollisionsExactly(a, b);
    assert Scrubbed(a) == a && Scrubbed(b) == b;
  }

  /** U+1F600 and U+1F601, each a valid id of two code units, share one encoding and so every key. */
  lemma EmojiCollide()
    ensures var a, b := [0xD83D, 0xDE00], [0xD83D, 0xDE01];
      a != b && IsUserId(a) && IsUserId(b) && Encode(a) == Encode(b)
  {
    CollisionsExactly([0xD83D, 0xDE00], [0xD83D, 0xDE01]);
  }

  // ---------------------------------------------------------------- the alphabet

  predicate InAlphabet(out: Text) {
    forall i | 0 <= i < |out| :: IsSafe(out[i]) || out[i] == PERCENT
  }

  lemma EscapeInAlphabet(b: Byte)
    ensures InAlphabet(Escape(b)) && |Escape(b)| == 3
  {
  }

  lemma InAlphabetAppend(a: Text, b: Text)
    requires InAlphabet(a) && InAlphabet(b)
    ensures InAlphabet(a + b)
  {
  }

  lemma {:induction false} EscapedInAlphabet(bytes: seq<Byte>)
    ensures InAlphabet(FlatMap(Escape, bytes)) && |FlatMap(Escape, bytes)| == 3 * |bytes|
  {
    if bytes != [] {
      var init, last := bytes[..|bytes| - 1], bytes[|bytes| - 1];
      EscapedInAlphabet(init);
      EscapeInAlphabet(last);
      InAlphabetAppend(FlatMap(Escape, init), Escape(last));
    }
  }

  lemma EncodeUnitInAlphabet(u: Unit)
    ensures InAlphabet(EncodeUnit(u)) && 1 <= |EncodeUnit(u)| <= 9
  {
    if !IsSafe(u) {
      EscapedInAlphabet(Utf8(u));
    }
  }

  /** An encoding holds only [A-Za-z0-9._%-], is empty only for the empty id, and is at most 9 times longer. */
  lemma {:induction false} EncodeInAlphabet(id: Text)
    ensures InAlphabet(Encode(id))
    ensures |id| <= |Encode(id)| <= 9 * |id|
  {
    if id != [] {
      EncodeInAlphabet(id[..|id| - 1]);
      EncodeUnitInAlphabet(id[|id| - 1]);
    }
  }

  // ---------------------------------------------------------------- key names

  predicate IsAscii(s: string) {
    forall i | 0 <= i < |s| :: s[i] as int < 0x80
  }

  function Ascii(s: string): Text
    requires IsAscii(s)
  {
    seq(|s|, i requires 0 <= i < |s| => s[i] as int)
  }

  const COLON: Unit := 0x3A

  /** The keys of one namespace. */
  datatype Name =
    | SessionRecord(user: Text, jti: Text)
    | UserIndex(user: Text)
    | SecurityVersion(user: Text)
    | CreateClaim(user: Text, jti: Text)
    | JtiIndex(jti: Text)
    | Revoked(jti: Text)
  {
    predicate HasUser() {
      SessionRecord? || UserIndex? || SecurityVersion? || CreateClaim?
    }

    predicate IsValid() {
      HasUser() ==> IsUserId(user)
    }
  }

  /** The key up to and including the brace, or up to the jti for the keys without a user. */
  function Head(name: Name): Text {
    match name
    case SessionRecord(_, _) => Ascii("session:{")
    case UserIndex(_) => Ascii("user-sessions:{")
    case SecurityVersion(_) => Ascii("security-version:{")
    case CreateClaim(_, _) => Ascii("create-claim:{")
    case JtiIndex(_) => Ascii("jti-index:")
    case Revoked(_) => Ascii("revoked:")
  }

  function Tail(name: Name): Text {
    match name
    case SessionRecord(_, jti) => Ascii(":session:") + jti
    case UserIndex(_) => []
    case SecurityVersion(_) => []
    case CreateClaim(_, jti) => Ascii(":") + jti
    case JtiIndex(jti) => jti
    case Revoked(jti) => jti
  }

  /** What follows the head: the escaped user and the closing brace, if there is a user, and the tail. */
  function Body(name: Name): Text {
    if name.HasUser() then Encode(name.user) + [CLOSE] + Tail(name) else Tail(name)
  }

  function Key(ns: Text, name: Name): Text {
    ns + [COLON] + (Head(name) + Body(name))
  }

  /** What the constructor accepts after trimming: no whitespace, braces, slash, colon or glob characters. */
  predicate IsNamespace(ns: Text) {
    1 <= |ns| <= 64 && forall i | 0 <= i < |ns| :: !IsReserved(ns[i])
  }

  predicate IsWhitespace(u: Unit) {
    0x09 <= u <= 0x0D || u == 0x20 || u == 0xA0 || u == 0x1680 || 0x2000 <= u <= 0x200A
    || u == 0x2028 || u == 0x2029 || u == 0x202F || u == 0x205F || u == 0x3000 || u == 0xFEFF
  }

  predicate IsReserved(u: Unit) {
    IsWhitespace(u) || u == OPEN || u == CLOSE || u == 0x2F || u == COLON
    || u == 0x2A || u == 0x3F || u == 0x5B || u == 0x5D
  }

  lemma EncodingIsPlain(id: Text)
    ensures OPEN !in Encode(id) && CLOSE !in Encode(id) && COLON !in Encode(id)
    ensures id != [] ==> Encode(id) != []
  {
    EncodeInAlphabet(id);
  }

  // ---------------------------------------------------------------- one slot per user

  lemma TagIsBetweenBraces(before: Text, tag: Text, rest: Text)
    requires OPEN !in before && tag != [] && CLOSE !in tag
    ensures HashTag(before + [OPEN] + tag + [CLOSE] + rest) == tag
  {
    var key := before + [OPEN] + tag + [CLOSE] + rest;
    var start, end := |before|, |before| + 1 + |tag|;
    assert key[start] == OPEN && key[end] == CLOSE && key[start + 1..end] == tag;
    assert forall i | 0 <= i < start :: key[i] == before[i];
    assert forall i | start < i < end :: key[i] == tag[i - start - 1];
    assert IndexOf(key, OPEN, 0) == Some(start);
    assert IndexOf(key, CLOSE, start + 1) == Some(end);
  }

  lemma EndsInBrace(s: string)
    requires IsAscii(s) && |s| > 0 && s[|s| - 1] == '{' && forall i | 0 <= i < |s| - 1 :: s[i] != '{'
    ensures var h := Ascii(s); h != [] && h == h[..|h| - 1] + [OPEN] && OPEN !in h[..|h| - 1]
  {
    var h := Ascii(s);
    assert '{' as int == OPEN;
    assert h[|h| - 1] == OPEN;
  }

  lemma HeadEndsInBrace(name: Name)
    requires name.HasUser()
    ensures var h := Head(name); h != [] && h == h[..|h| - 1] + [OPEN] && OPEN !in h[..|h| - 1]
  {
    match name
    case SessionRecord(_, _) => EndsInBrace("session:{");
    case UserIndex(_) => EndsInBrace("user-sessions:{");
    case SecurityVersion(_) => EndsInBrace("security-version:{");
    case CreateClaim(_, _) => EndsInBrace("create-claim:{");
  }

  lemma Regroup(a: Text, b: Text, tag: Text, rest: Text)
    ensures a + ((b + [OPEN]) + (tag + [CLOSE] + rest)) == (a + b) + [OPEN] + tag + [CLOSE] + rest
  {
  }

  lemma OpenNotIn(ns: Text, head: Text)
    requires IsNamespace(ns) && OPEN !in head
    ensures OPEN !in ns + [COLON] + head
  {
  }

  /** The hash tag of a user's key is the escaped user id, whatever the jti holds. */
  lemma TagIsUser(ns: Text, name: Name)
    requires IsNamespace(ns) && name.IsValid() && name.HasUser()
    ensures HashTag(Key(ns, name)) == Encode(name.user)
  {
    var head := Head(name)[..|Head(name)| - 1];
    HeadEndsInBrace(name);
    EncodingIsPlain(name.user);
    OpenNotIn(ns, head);
    TagIsBetweenBraces(ns + [COLON] + head, Encode(name.user), Tail(name));
    Regroup(ns + [COLON], head, Encode(name.user), Tail(name));
  }

  lemma SlotOfTag(key: Text, tag: Text)
    requires HashTag(key) == tag
    ensures Slot(key) == LowBits(Crc(tag))
  {
  }

  /** All the keys that one script receives for a user are in one slot. */
  lemma OneSlotPerUser(ns: Text, a: Name, b: Name)
    requires IsNamespace(ns) && a.IsValid() && b.IsValid() && a.HasUser() && b.HasUser()
    requires a.user == b.user
    ensures Slot(Key(ns, a)) == Slot(Key(ns, b)) == LowBits(Crc(Encode(a.user)))
  {
    TagIsUser(ns, a);
    TagIsUser(ns, b);
    SlotOfTag(Key(ns, a), Encode(a.user));
    SlotOfTag(Key(ns, b), Encode(b.user));
  }

  /** sessionKeyPrefix, to which the eviction loops append a jti. */
  function SessionKeyPrefix(ns: Text, user: Text): Text {
    ns + [COLON] + Ascii("session:{") + Encode(user) + [CLOSE] + Ascii(":session:")
  }

  lemma PrefixMakesKey(ns: Text, user: Text, jti: Text)
    ensures SessionKeyPrefix(ns, user) + jti == Key(ns, SessionRecord(user, jti))
  {
  }

  // ---------------------------------------------------------------- keys name one thing only

  /** The same thing, up to the surrogate halves of user ids. */
  predicate SameName(a: Name, b: Name) {
    && (a.SessionRecord? <==> b.SessionRecord?) && (a.UserIndex? <==> b.UserIndex?)
    && (a.SecurityVersion? <==> b.SecurityVersion?) && (a.CreateClaim? <==> b.CreateClaim?)
    && (a.JtiIndex? <==> b.JtiIndex?)
    && (a.HasUser() ==> Scrubbed(a.user) == Scrubbed(b.user))
    && (a.UserIndex? || a.SecurityVersion? || a.jti == b.jti)
  }

  lemma HeadsDiffer(a: Name, b: Name, x: Text, y: Text)
    requires Head(a) + x == Head(b) + y
    ensures Head(a) == Head(b) && x == y
  {
    var s, t := Head(a) + x, Head(b) + y;
    assert s[0] == Head(a)[0] && t[0] == Head(b)[0] && s[2] == Head(a)[2] && t[2] == Head(b)[2];
    CancelPrefix(Head(a), x, y);
  }

  lemma BodiesDetermine(a: Name, b: Name)
    requires Head(a) == Head(b)
    ensures Body(a) == Body(b) <==> SameName(a, b)
  {
    HeadsTell(a, b);
    if a.HasUser() {
      EncodingIsPlain(a.user);
      EncodingIsPlain(b.user);
      CollisionsExactly(a.user, b.user);
      if Body(a) == Body(b) {
        CutAtMark(CLOSE, Encode(a.user), Tail(a), Encode(b.user), Tail(b));
      }
    }
    TailsDetermine(a, b);
  }

  lemma HeadsTell(a: Name, b: Name)
    ensures Head(a) == Head(b) <==>
            && (a.SessionRecord? <==> b.SessionRecord?) && (a.UserIndex? <==> b.UserIndex?)
            && (a.SecurityVersion? <==> b.SecurityVersion?) && (a.CreateClaim? <==> b.CreateClaim?)
            && (a.JtiIndex? <==> b.JtiIndex?)
  {
    if Head(a) == Head(b) {
      assert Head(a)[0] == Head(b)[0] && Head(a)[2] == Head(b)[2];
    }
  }

  lemma TailsDetermine(a: Name, b: Name)
    requires Head(a) == Head(b)
    ensures Tail(a) == Tail(b) <==> (a.UserIndex? || a.SecurityVersion? || a.jti == b.jti)
  {
    HeadsTell(a, b);
    if Tail(a) == Tail(b) {
      if a.SessionRecord? {
        CancelPrefix(Ascii(":session:"), a.jti, b.jti);
      } else if a.CreateClaim? {
        CancelPrefix(Ascii(":"), a.jti, b.jti);
      }
    }
  }

  /**
   * The key families are disjoint, across namespaces too, and each is injective in user and jti, up to
   * the surrogate halves of user ids.
   */
  lemma KeysNameOneThing(ns1: Text, a: Name, ns2: Text, b: Name)
    requires IsNamespace(ns1) && IsNamespace(ns2)
    ensures Key(ns1, a) == Key(ns2, b) <==> ns1 == ns2 && SameName(a, b)
  {
    if Key(ns1, a) == Key(ns2, b) {
      CutAtMark(COLON, ns1, Head(a) + Body(a), ns2, Head(b) + Body(b));
      HeadsDiffer(a, b, Body(a), Body(b));
    }
    if SameName(a, b) {
      HeadsTell(a, b);
    }
    if Head(a) == Head(b) {
      BodiesDetermine(a, b);
    }
  }
}
