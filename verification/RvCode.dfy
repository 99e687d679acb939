/** Rendezvous codes (src/rvcode.rs): the human spelling `<channel>-<word>-<word>` and the URL spelling
    `b2p://[host/]<topic>#<secret>`, printed and parsed. */
module RvCode {

  import opened Bytes

  datatype Spelling = Human | Url

  datatype Code = Code(topic: string, secret: bytes, relayHost: Option<string>, spelling: Spelling)

  datatype Problem =
    | NoHash | BadHost | EmptyTopic | TopicNotBase58 | TopicLength | SecretNotBase58 | SecretLength
    | NotThreeParts | BadChannel | UnknownWord

  datatype Result = Ok(code: Code) | Err(why: Problem)

  const SCHEME := "b2p://"

  // ---------------------------------------------------------------- what the libraries give

  /** base58, the frozen word list, and the key derivation behind a human code's topic. */
  datatype Tables = Tables(encode: bytes -> string, decode: string -> Option<bytes>,
                           words: seq<string>, derive: byte -> bytes)

  predicate InAlphabet(c: char) {
    && ('1' <= c <= '9' || 'A' <= c <= 'Z' || 'a' <= c <= 'z')
    && c != 'I' && c != 'O' && c != 'l'
  }

  /** base58 is a bijection between byte strings and strings over its alphabet. */
  ghost predicate Base58(t: Tables) {
    && (forall b :: t.decode(t.encode(b)) == Some(b))
    && (forall s :: t.decode(s).Some? ==> t.encode(t.decode(s).value) == s)
    && (forall s :: t.decode(s).Some? <==> forall c :: c in s ==> InAlphabet(c))
    && t.decode("") == Some([])
  }

  /** 256 distinct non-empty words of lower-case letters. */
  ghost predicate WordList(words: seq<string>) {
    && |words| == 256
    && (forall i, j :: 0 <= i < j < 256 ==> words[i] != words[j])
    && (forall i :: 0 <= i < 256 ==> words[i] != "" && forall c :: c in words[i] ==> 'a' <= c <= 'z')
  }

  ghost predicate Sound(t: Tables) {
    Base58(t) && WordList(t.words) && forall c: byte :: |t.derive(c)| == 32
  }

  function TopicFromChannel(t: Tables, channel: byte): string
    requires |t.derive(channel)| == 32
  {
    t.encode(t.derive(channel)[..16])
  }

  /** `words::index_of`: the first position of `w`, from `i` on. */
  function IndexOf(words: seq<string>, w: string, i: nat): Option<nat>
    requires i <= |words|
    decreases |words| - i
  {
    if i == |words| then None
    else if words[i] == w then Some(i)
    else IndexOf(words, w, i + 1)
  }

  lemma {:induction false} IndexOfExact(words: seq<string>, w: string, i: nat)
    requires WordList(words) && i <= |words|
    requires forall j :: 0 <= j < i ==> words[j] != w
    ensures forall k: nat :: IndexOf(words, w, i) == Some(k) <==> k < 256 && words[k] == w
    decreases |words| - i
  {
    if i < |words| && words[i] != w {
      IndexOfExact(words, w, i + 1);
    }
  }

  // ---------------------------------------------------------------- strings

  /** Unicode `White_Space`. */
  predicate IsSpace(c: char) {
    || '\U{0009}' <= c <= '\U{000D}' || c == ' ' || c == '\U{0085}' || c == '\U{00A0}' || c == '\U{1680}'
    || '\U{2000}' <= c <= '\U{200A}' || c == '\U{2028}' || c == '\U{2029}' || c == '\U{202F}'
    || c == '\U{205F}' || c == '\U{3000}'
  }

  function TrimStart(s: string): string {
    if s != "" && IsSpace(s[0]) then TrimStart(s[1..]) else s
  }

  function TrimEnd(s: string): string {
    if s != "" && IsSpace(s[|s| - 1]) then TrimEnd(s[..|s| - 1]) else s
  }

  function Trim(s: string): string {
    TrimEnd(TrimStart(s))
  }

  predicate Blank(s: string) {
    forall i :: 0 <= i < |s| ==> IsSpace(s[i])
  }

  /** Neither end is white space. */
  predicate Bare(s: string) {
    s == "" || (!IsSpace(s[0]) && !IsSpace(s[|s| - 1]))
  }

  lemma {:induction false} TrimStartIs(s: string) returns (pre: string)
    ensures s == pre + TrimStart(s) && Blank(pre)
    ensures TrimStart(s) == "" || !IsSpace(TrimStart(s)[0])
  {
    pre := "";
    if s != "" && IsSpace(s[0]) {
      var more := TrimStartIs(s[1..]);
      pre := [s[0]] + more;
      assert s == [s[0]] + s[1..];
    }
  }

  lemma {:induction false} TrimEndIs(s: string) returns (post: string)
    ensures s == TrimEnd(s) + post && Blank(post)
    ensures TrimEnd(s) == "" || (!IsSpace(TrimEnd(s)[|TrimEnd(s)| - 1]) && TrimEnd(s)[0] == s[0])
  {
    post := "";
    if s != "" && IsSpace(s[|s| - 1]) {
      var more := TrimEndIs(s[..|s| - 1]);
      post := more + [s[|s| - 1]];
      assert s == s[..|s| - 1] + [s[|s| - 1]];
    }
  }

  /** Between white space there is only one text with bare ends. */
  lemma OneBareText(pre: string, mid: string, post: string, pre': string, mid': string, post': string)
    requires pre + mid + post == pre' + mid' + post'
    requires Blank(pre) && Blank(post) && Bare(mid) && Blank(pre') && Blank(post') && Bare(mid')
    ensures mid == mid'
  {
    hide IsSpace;
    var s := pre + mid + post;
    var i, n, i', n' := |pre|, |pre| + |mid|, |pre'|, |pre'| + |mid'|;
    assert s == pre' + mid' + post';
    assert forall k :: 0 <= k < i || n <= k < |s| ==> IsSpace(s[k]);
    assert forall k :: 0 <= k < i' || n' <= k < |s| ==> IsSpace(s[k]);
    assert s[i..n] == mid && s[i'..n'] == mid';
    assert mid != "" ==> !IsSpace(s[i]) && !IsSpace(s[n - 1]);
    assert mid' != "" ==> !IsSpace(s[i']) && !IsSpace(s[n' - 1]);
    assert mid != "" && mid' != "" ==> i == i' && n == n';
  }

  /** Trimming takes the white space off both ends and nothing else. */
  lemma TrimExactly(s: string, mid: string)
    ensures Trim(s) == mid <==> Bare(mid) && exists pre, post :: Blank(pre) && Blank(post) && s == pre + mid + post
  {
    hide IsSpace, TrimStart, TrimEnd;
    var pre := TrimStartIs(s);
    var post := TrimEndIs(TrimStart(s));
    assert s == pre + Trim(s) + post;
    assert Bare(Trim(s));
    if Bare(mid) {
      if a, b :| Blank(a) && Blank(b) && s == a + mid + b {
        OneBareText(a, mid, b, pre, Trim(s), post);
      }
    }
  }

  predicate StartsWith(s: string, prefix: string) {
    |prefix| <= |s| && s[..|prefix|] == prefix
  }

  /** Position of the first `c`, or the length. */
  function Find(s: string, c: char): (i: nat)
    ensures i <= |s| && (forall j :: 0 <= j < i ==> s[j] != c) && (i < |s| ==> s[i] == c)
  {
    if s == "" || s[0] == c then 0
    else
      1 + Find(s[1..], c)
  }

  /** What stands before and after the first `c`. */
  function SplitOnce(s: string, c: char): (r: Option<(string, string)>)
    ensures r == None <==> c !in s
    ensures r.Some? ==> s == r.value.0 + [c] + r.value.1 && c !in r.value.0
  {
    var i := Find(s, c);
    assert s == s[..i] + s[i..];
    if i == |s| then None else Some((s[..i], s[i + 1..]))
  }

  lemma SplitOnceAt(a: string, c: char, b: string)
    requires c !in a
    ensures SplitOnce(a + [c] + b, c) == Some((a, b))
  {
    var s := a + [c] + b;
    var i := Find(s, c);
    assert s[|a|] == c && forall j :: 0 <= j < |a| ==> s[j] == a[j];
    assert s[..|a|] == a && s[|a| + 1..] == b;
    assert i == |a|;
  }

  function Split(s: string, c: char): (parts: seq<string>)
    ensures |parts| >= 1
    decreases |s|
  {
    match SplitOnce(s, c)
    case None => [s]
    case Some((a, b)) => [a] + Split(b, c)
  }

  lemma SplitCons(a: string, c: char, b: string)
    requires c !in a
    ensures Split(a + [c] + b, c) == [a] + Split(b, c)
  {
    SplitOnceAt(a, c, b);
  }

  lemma SplitLast(a: string, c: char)
    requires c !in a
    ensures Split(a, c) == [a]
  {
  }

  lemma ThreeParts(x: string, c: char, y: string, z: string)
    requires c !in x && c !in y && c !in z
    ensures Split(x + [c] + y + [c] + z, c) == [x, y, z]
  {
    hide Split, SplitOnce;
    SplitLast(z, c);
    SplitCons(y, c, z);
    SplitCons(x, c, y + [c] + z);
    assert x + [c] + y + [c] + z == x + [c] + (y + [c] + z);
  }

  /** The parts, joined with the separator, are the text. */
  function Joined(parts: seq<string>, c: char): string
    requires |parts| >= 1
  {
    if |parts| == 1 then parts[0] else parts[0] + [c] + Joined(parts[1..], c)
  }

  lemma {:induction false} SplitJoins(s: string, c: char)
    ensures Joined(Split(s, c), c) == s
    ensures forall i :: 0 <= i < |Split(s, c)| ==> c !in Split(s, c)[i]
    decreases |s|
  {
    var r := SplitOnce(s, c);
    if r.Some? {
      SplitJoins(r.value.1, c);
      assert Split(s, c)[1..] == Split(r.value.1, c);
    }
  }

  // ---------------------------------------------------------------- decimal bytes

  function Digit(d: nat): char
    requires d < 10
  {
    '0' + d as char
  }

  function Decimal(n: byte): (s: string)
    ensures s != ""
  {
    if n < 10 then [Digit(n)] else if n < 100 then [Digit(n / 10), Digit(n % 10)]
    else [Digit(n / 100), Digit(n / 10 % 10), Digit(n % 10)]
  }

  predicate AllDigits(s: string) {
    forall i :: 0 <= i < |s| ==> '0' <= s[i] <= '9'
  }

  function Value(s: string): nat
    requires AllDigits(s)
  {
    assert s != "" ==> '0' <= s[|s| - 1];
    if s == "" then 0 else 10 * Value(s[..|s| - 1]) + (s[|s| - 1] as int - '0' as int)
  }

  /** `str::parse::<u8>`: an optional plus sign, then digits, leading zeros included. */
  function ParseByte(s: string): (r: Option<nat>)
    ensures r.Some? ==> r.value < 256
  {
    var digits := if s != "" && s[0] == '+' then s[1..] else s;
    if digits != "" && AllDigits(digits) && Value(digits) < 256 then Some(Value(digits)) else None
  }

  lemma DecimalParses(n: byte)
    ensures ParseByte(Decimal(n)) == Some(n)
    ensures AllDigits(Decimal(n))
  {
    hide Digit, Value, Decimal, AllDigits;
    DecimalValue(n);
  }

  lemma DecimalValue(n: byte)
    ensures AllDigits(Decimal(n)) && Value(Decimal(n)) == n && Decimal(n)[0] != '+'
  {
    hide Digit, Value, AllDigits;
    if n < 10 {
      OneDigit(n);
    } else if n < 100 {
      TwoDigits(n / 10, n % 10);
    } else {
      assert n / 10 / 10 == n / 100;
      ThreeDigits(n / 100, n / 10 % 10, n % 10);
    }
  }

  lemma OneDigit(c: nat)
    requires c < 10
    ensures Digit(c) != '+' && AllDigits([Digit(c)]) && Value([Digit(c)]) == c
  {
    assert Digit(c) != '+';
    NoDigits();
    hide Value, AllDigits, Digit;
    ValueSnoc("", c);
    assert "" + [Digit(c)] == [Digit(c)];
  }

  lemma NoDigits()
    ensures AllDigits("") && Value("") == 0
  {
  }

  lemma TwoDigits(b: nat, c: nat)
    requires b < 10 && c < 10
    ensures Digit(b) != '+' && AllDigits([Digit(b), Digit(c)]) && Value([Digit(b), Digit(c)]) == 10 * b + c
  {
    hide Value, AllDigits;
    OneDigit(b);
    ValueSnoc([Digit(b)], c);
    assert [Digit(b)] + [Digit(c)] == [Digit(b), Digit(c)];
  }

  lemma ThreeDigits(a: nat, b: nat, c: nat)
    requires a < 10 && b < 10 && c < 10
    ensures Digit(a) != '+' && AllDigits([Digit(a), Digit(b), Digit(c)])
    ensures Value([Digit(a), Digit(b), Digit(c)]) == 100 * a + 10 * b + c
  {
    hide Value, AllDigits;
    TwoDigits(a, b);
    ValueSnoc([Digit(a), Digit(b)], c);
    assert [Digit(a), Digit(b)] + [Digit(c)] == [Digit(a), Digit(b), Digit(c)];
  }

  lemma ValueSnoc(s: string, d: nat)
    requires AllDigits(s) && d < 10
    ensures AllDigits(s + [Digit(d)]) && Value(s + [Digit(d)]) == 10 * Value(s) + d
  {
    assert (s + [Digit(d)])[..|s|] == s;
  }

  function Zeros(n: nat): string {
    seq(n, _ => '0')
  }

  lemma {:induction false} ValueOfZeros(n: nat, s: string)
    requires AllDigits(s)
    ensures AllDigits(Zeros(n) + s) && Value(Zeros(n) + s) == Value(s)
    decreases |s|, n
  {
    if s == "" {
      assert Zeros(n) + s == Zeros(n);
      if n > 0 {
        assert Zeros(n)[..n - 1] == Zeros(n - 1) == Zeros(n - 1) + "";
        ValueOfZeros(n - 1, "");
      }
    } else {
      var init := s[..|s| - 1];
      ValueOfZeros(n, init);
      assert (Zeros(n) + s)[..n + |s| - 1] == Zeros(n) + init;
      assert s[|s| - 1] == (Zeros(n) + s)[n + |s| - 1];
    }
  }

  lemma LastDigit(s: string) returns (init: string, d: nat)
    requires AllDigits(s) && s != ""
    ensures d < 10 && s == init + [Digit(d)] && AllDigits(init) && Value(s) == 10 * Value(init) + d
    ensures init == s[..|s| - 1]
  {
    init, d := s[..|s| - 1], s[|s| - 1] as int - '0' as int;
    assert s == init + [s[|s| - 1]];
  }

  /** Digits for a byte, without needless zeros, are its decimal form. */
  lemma ShortDigits(s: string)
    requires AllDigits(s) && s != "" && Value(s) < 256 && (|s| > 1 ==> s[0] != '0')
    ensures s == Decimal(Value(s))
  {
    hide Value, AllDigits, Digit, Decimal, Power;
    Lengthy(s);
    NoDigits();
    var a, x := LastDigit(s);
    if a == "" {
      OnePlace(s, x);
    } else {
      assert s[0] != '0';
      MorePlaces(s, a, x);
    }
  }

  lemma MorePlaces(s: string, a: string, x: nat)
    requires x < 10 && a != "" && AllDigits(a) && s == a + [Digit(x)]
    requires |s| <= 3 && s[0] != '0' && 10 * Value(a) + x < 256
    ensures s == Decimal(10 * Value(a) + x)
  {
    hide Value, AllDigits, Digit, Decimal, Power;
    NoDigits();
    var b, y := LastDigit(a);
    if b == "" {
      TwoPlaces(s, y, x);
    } else {
      LastPlace(s, b, y, x);
    }
  }

  lemma LastPlace(s: string, b: string, y: nat, x: nat)
    requires y < 10 && x < 10 && b != "" && AllDigits(b) && s == b + [Digit(y)] + [Digit(x)]
    requires |s| <= 3 && s[0] != '0' && 10 * (10 * Value(b) + y) + x < 256
    ensures s == Decimal(10 * (10 * Value(b) + y) + x)
  {
    NoDigits();
    hide Value, AllDigits, Digit, Decimal;
    var c, z := LastDigit(b);
    assert |b| == 1 && c == "";
    ThreePlaces(s, z, y, x);
  }

  lemma OnePlace(s: string, x: nat)
    requires x < 10 && s == "" + [Digit(x)]
    ensures s == Decimal(x)
  {
  }

  lemma TwoPlaces(s: string, y: nat, x: nat)
    requires y < 10 && x < 10 && s == "" + [Digit(y)] + [Digit(x)] && s[0] != '0'
    ensures s == Decimal(10 * y + x)
  {
    assert s == [Digit(y), Digit(x)];
    assert y > 0;
    assert (10 * y + x) / 10 == y && (10 * y + x) % 10 == x;
  }

  lemma ThreePlaces(s: string, z: nat, y: nat, x: nat)
    requires z < 10 && y < 10 && x < 10 && s == "" + [Digit(z)] + [Digit(y)] + [Digit(x)] && s[0] != '0'
    requires 10 * (10 * z + y) + x < 256
    ensures s == Decimal(10 * (10 * z + y) + x)
  {
    assert s == [Digit(z), Digit(y), Digit(x)];
    assert z > 0;
    var n := 10 * (10 * z + y) + x;
    assert n / 10 == 10 * z + y && n % 10 == x;
    assert n / 100 == z && n / 10 % 10 == y;
  }

  lemma {:induction false} FirstDigitCounts(s: string)
    requires AllDigits(s) && s != "" && s[0] != '0'
    ensures Value(s) >= Power(|s| - 1)
  {
    var init := s[..|s| - 1];
    if init == "" {
    } else {
      assert init[0] == s[0];
      FirstDigitCounts(init);
    }
  }

  function Power(n: nat): (p: nat)
    ensures p > 0
  {
    if n == 0 then 1 else 10 * Power(n - 1)
  }

  lemma Lengthy(s: string)
    requires AllDigits(s) && s != "" && Value(s) < 256 && (|s| > 1 ==> s[0] != '0')
    ensures |s| <= 3
  {
    if |s| > 1 {
      FirstDigitCounts(s);
      if |s| > 3 {
        BigPower(|s| - 1);
      }
    }
  }

  lemma {:induction false} BigPower(n: nat)
    requires n >= 3
    ensures Power(n) >= 1000
  {
    if n == 3 {
      assert Power(1) == 10 && Power(2) == 100;
    } else {
      BigPower(n - 1);
    }
  }

  lemma {:induction false} StripZeros(s: string) returns (n: nat, rest: string)
    requires AllDigits(s) && s != ""
    ensures s == Zeros(n) + rest && rest != "" && AllDigits(rest) && (|rest| > 1 ==> rest[0] != '0')
  {
    if |s| > 1 && s[0] == '0' {
      var k, more := StripZeros(s[1..]);
      n, rest := k + 1, more;
      assert s == [s[0]] + s[1..];
      assert Zeros(n) == ['0'] + Zeros(k);
    } else {
      n, rest := 0, s;
      assert Zeros(0) + s == s;
    }
  }

  /** Which texts denote a byte: its decimal form, after an optional plus sign and any zeros. "300" is the
      decimal form of no byte, so it denotes none. */
  lemma ByteTexts(s: string, n: byte)
    ensures ParseByte(s) == Some(n) <==>
              exists k: nat :: s == Zeros(k) + Decimal(n) || s == "+" + Zeros(k) + Decimal(n)
  {
    hide Value, Decimal, AllDigits;
    if ParseByte(s) == Some(n) {
      var digits := if s != "" && s[0] == '+' then s[1..] else s;
      var k, rest := StripZeros(digits);
      ValueOfZeros(k, rest);
      ShortDigits(rest);
      assert s != "" && s[0] == '+' ==> s == "+" + Zeros(k) + rest;
    }
    forall k: nat | s == Zeros(k) + Decimal(n) || s == "+" + Zeros(k) + Decimal(n)
      ensures ParseByte(s) == Some(n)
    {
      PaddedParses(k, n);
    }
  }

  lemma PaddedParses(k: nat, n: byte)
    ensures ParseByte(Zeros(k) + Decimal(n)) == Some(n) && ParseByte("+" + Zeros(k) + Decimal(n)) == Some(n)
  {
    var d := Zeros(k) + Decimal(n);
    DecimalParses(n);
    DecimalValue(n);
    ValueOfZeros(k, Decimal(n));
    assert d[0] != '+';
    assert "+" + Zeros(k) + Decimal(n) == "+" + d && ("+" + d)[1..] == d;
  }

  // ---------------------------------------------------------------- parse and print

  predicate HostChar(c: char) {
    'a' <= c <= 'z' || 'A' <= c <= 'Z' || '0' <= c <= '9' || c in ".-:"
  }

  predicate ValidHost(host: string) {
    host != "" && forall c :: c in host ==> HostChar(c)
  }

  /** The characters of a host and of base58, one by one. */
  lemma CharactersExactly(c: char)
    ensures HostChar(c) <==> c in "0123456789" || c in "ABCDEFGHIJKLMNOPQRSTUVWXYZ" || c in "abcdefghijklmnopqrstuvwxyz" || c in ".-:"
    ensures InAlphabet(c) <==> c in "123456789" || c in "ABCDEFGHJKLMNPQRSTUVWXYZ" || c in "abcdefghijkmnopqrstuvwxyz"
  {
    Digits(c);
    Capitals(c);
    SmallLetters(c);
  }

  lemma Digits(c: char)
    ensures c in "0123456789" <==> '0' <= c <= '9'
    ensures c in "123456789" <==> '1' <= c <= '9'
  {
  }

  lemma Capitals(c: char)
    ensures c in "ABCDEFGHIJKLMNOPQRSTUVWXYZ" <==> 'A' <= c <= 'Z'
    ensures c in "ABCDEFGHJKLMNPQRSTUVWXYZ" <==> 'A' <= c <= 'Z' && c != 'I' && c != 'O'
  {
  }

  lemma SmallLetters(c: char)
    ensures c in "abcdefghijklmnopqrstuvwxyz" <==> 'a' <= c <= 'z'
    ensures c in "abcdefghijkmnopqrstuvwxyz" <==> 'a' <= c <= 'z' && c != 'l'
  {
  }

  function ParseUrl(t: Tables, rest: string): Result {
    match SplitOnce(rest, '#')
    case None => Err(NoHash)
    case Some((addr, secret)) =>
      match SplitOnce(addr, '/')
      case None => ParseTopic(t, None, addr, secret)
      case Some((host, topic)) =>
        if !ValidHost(host) then Err(BadHost) else ParseTopic(t, Some(host), topic, secret)
  }

  function ParseTopic(t: Tables, host: Option<string>, topic: string, secret: string): Result {
    if topic == "" then Err(EmptyTopic)
    else
      match t.decode(topic)
      case None => Err(TopicNotBase58)
      case Some(topicBytes) =>
        if |topicBytes| != 16 then Err(TopicLength)
        else
          match t.decode(secret)
          case None => Err(SecretNotBase58)
          case Some(s) =>
            if |s| != 16 && |s| != 3 then Err(SecretLength) else Ok(Code(topic, s, host, Url))
  }

  function ParseHuman(t: Tables, s: string): Result
    requires forall c: byte :: |t.derive(c)| == 32
  {
    var parts := Split(s, '-');
    if |parts| != 3 then Err(NotThreeParts)
    else
      match (ParseByte(parts[0]), IndexOf(t.words, parts[1], 0), IndexOf(t.words, parts[2], 0))
      case (None, _, _) => Err(BadChannel)
      case (Some(channel), Some(i1), Some(i2)) =>
        Ok(Code(TopicFromChannel(t, channel), [channel, i1 % 256, i2 % 256], None, Human))
      case _ => Err(UnknownWord)
  }

  function Parse(t: Tables, text: string): Result
    requires forall c: byte :: |t.derive(c)| == 32
  {
    var s := Trim(text);
    if StartsWith(s, SCHEME) then ParseUrl(t, s[|SCHEME|..]) else ParseHuman(t, s)
  }

  /** The classifier that decides how the command line reads its argument. */
  predicate IsRendezvousCode(t: Tables, text: string) {
    var s := Trim(text);
    var parts := Split(s, '-');
    || StartsWith(s, SCHEME)
    || (|parts| == 3 && ParseByte(parts[0]).Some?
        && IndexOf(t.words, parts[1], 0).Some? && IndexOf(t.words, parts[2], 0).Some?)
  }

  function HostPart(host: Option<string>): string {
    if host.Some? then host.value + "/" else ""
  }

  function AfterScheme(t: Tables, code: Code, host: Option<string>): string {
    HostPart(host) + code.topic + "#" + t.encode(code.secret)
  }

  function UrlSpelling(t: Tables, code: Code, host: Option<string>): string {
    SCHEME + AfterScheme(t, code, host)
  }

  /** `Display`. */
  function Print(t: Tables, code: Code): string
    requires code.spelling.Human? ==> |code.secret| == 3 && |t.words| == 256
  {
    if code.spelling.Human? then Decimal(code.secret[0]) + "-" + t.words[code.secret[1]] + "-" + t.words[code.secret[2]]
    else UrlSpelling(t, code, code.relayHost)
  }

  // ---------------------------------------------------------------- printer and parser undo each other

  /** What the generators and the parser make. */
  ghost predicate IsCode(t: Tables, code: Code)
    requires forall c: byte :: |t.derive(c)| == 32
  {
    match code.spelling
    case Human => |code.secret| == 3 && code.relayHost == None && code.topic == TopicFromChannel(t, code.secret[0])
    case Url =>
      && (|code.secret| == 16 || |code.secret| == 3)
      && t.decode(code.topic).Some? && |t.decode(code.topic).value| == 16
      && (code.relayHost.Some? ==> ValidHost(code.relayHost.value))
  }

  lemma TrimNothing(s: string)
    requires s == "" || (!IsSpace(s[0]) && !IsSpace(s[|s| - 1]))
    ensures Trim(s) == s
  {
  }

  lemma EncodedIsPlain(t: Tables, b: bytes)
    requires Base58(t)
    ensures forall c :: c in t.encode(b) ==> InAlphabet(c)
    ensures b != [] ==> t.encode(b) != ""
  {
    assert t.decode(t.encode(b)) == Some(b);
  }

  lemma AlphabetIsPlain(s: string)
    requires forall c :: c in s ==> InAlphabet(c)
    ensures '#' !in s && '/' !in s && '-' !in s
    ensures s != "" ==> !IsSpace(s[|s| - 1])
  {
    assert s != "" ==> InAlphabet(s[|s| - 1]);
  }

  /** Trimming leaves what a URL spelling prints, whatever the host is. */
  lemma UrlSurvivesTrim(t: Tables, code: Code, host: Option<string>)
    requires Base58(t) && code.secret != []
    ensures Trim(UrlSpelling(t, code, host)) == UrlSpelling(t, code, host)
    ensures StartsWith(UrlSpelling(t, code, host), SCHEME)
    ensures UrlSpelling(t, code, host)[|SCHEME|..] == AfterScheme(t, code, host)
  {
    var s := UrlSpelling(t, code, host);
    var e := t.encode(code.secret);
    EncodedIsPlain(t, code.secret);
    AlphabetIsPlain(e);
    assert s[|s| - 1] == e[|e| - 1];
    assert s[0] == 'b';
    TrimNothing(s);
  }

  lemma TopicParses(t: Tables, code: Code, host: Option<string>)
    requires Sound(t) && IsCode(t, code)
    ensures ParseTopic(t, host, code.topic, t.encode(code.secret)) == Ok(Code(code.topic, code.secret, host, Url))
    ensures forall c :: c in code.topic ==> InAlphabet(c)
    ensures code.secret != []
  {
    assert t.decode(t.encode(code.secret)) == Some(code.secret);
    if code.spelling.Human? {
      var id := t.derive(code.secret[0])[..16];
      assert t.decode(t.encode(id)) == Some(id);
    }
    assert t.decode("") == Some([]);
  }

  lemma ValidHostIsPlain(host: string)
    requires ValidHost(host)
    ensures '#' !in host && '/' !in host
  {
    assert forall c :: c in host ==> HostChar(c);
  }

  /** The part after the scheme, printed with a valid host or none, parses back. */
  lemma AfterSchemeParses(t: Tables, code: Code, host: Option<string>)
    requires Sound(t) && IsCode(t, code) && (host.Some? ==> ValidHost(host.value))
    ensures ParseUrl(t, AfterScheme(t, code, host)) == Ok(Code(code.topic, code.secret, host, Url))
  {
    hide SplitOnce, ValidHost, ParseTopic, IsCode, Sound;
    var addr := HostPart(host) + code.topic;
    TopicParses(t, code, host);
    AlphabetIsPlain(code.topic);
    if host.Some? {
      ValidHostIsPlain(host.value);
      SplitOnceAt(host.value, '/', code.topic);
      assert '#' !in addr;
    } else {
      assert addr == code.topic;
    }
    SplitOnceAt(addr, '#', t.encode(code.secret));
  }

  /** A URL that parses is spelled exactly as its code is printed. */
  lemma ParsedIsPrinted(t: Tables, rest: string, code: Code)
    requires Sound(t) && ParseUrl(t, rest) == Ok(code)
    ensures code.spelling.Url? && IsCode(t, code) && rest == AfterScheme(t, code, code.relayHost)
  {
    var (addr, secret) := SplitOnce(rest, '#').value;
    assert rest == addr + "#" + secret;
    assert t.encode(code.secret) == secret;
    if SplitOnce(addr, '/').Some? {
      var (host, topic) := SplitOnce(addr, '/').value;
      assert addr == host + "/" + topic;
    }
  }

  /** Only one way to cut a text at the last `c`. */
  lemma LastCut(a: string, x: string, b: string, y: string, c: char)
    requires a + [c] + x == b + [c] + y && c !in x && c !in y
    ensures a == b && x == y
  {
    var s, r := a + [c] + x, b + [c] + y;
    assert s[|a|] == c && r[|b|] == c;
    assert forall j :: |a| < j < |s| ==> s[j] == x[j - |a| - 1];
    assert forall j :: |b| < j < |r| ==> r[j] == y[j - |b| - 1];
    assert s[..|a|] == a && r[..|b|] == b && s[|a| + 1..] == x && r[|b| + 1..] == y;
  }

  /** Two codes with one URL spelling name the same host. */
  lemma SameSpellingSameHost(t: Tables, x: Code, h: Option<string>, y: Code, k: Option<string>)
    requires Sound(t) && IsCode(t, x) && IsCode(t, y)
    requires AfterScheme(t, x, h) == AfterScheme(t, y, k)
    ensures h == k
  {
    SpellingParts(t, x, h);
    SpellingParts(t, y, k);
    hide IsCode, Sound;
    LastCut(HostPart(h) + x.topic, t.encode(x.secret), HostPart(k) + y.topic, t.encode(y.secret), '#');
    if h.Some? && k.Some? {
      LastCut(h.value, x.topic, k.value, y.topic, '/');
    }
  }

  lemma SpellingParts(t: Tables, x: Code, h: Option<string>)
    requires Sound(t) && IsCode(t, x)
    ensures '/' !in x.topic && '#' !in t.encode(x.secret)
    ensures '/' in HostPart(h) + x.topic <==> h.Some?
  {
    TopicParses(t, x, None);
    AlphabetIsPlain(x.topic);
    EncodedIsPlain(t, x.secret);
    AlphabetIsPlain(t.encode(x.secret));
  }

  /** A URL spelling parses back to the same topic, secret and host exactly when the host, if one is
      named, is a non-empty string of letters, digits, dots, hyphens and colons; else it is refused. */
  lemma UrlSpellingParses(t: Tables, code: Code, host: Option<string>)
    requires Sound(t) && IsCode(t, code)
    ensures var r := Parse(t, UrlSpelling(t, code, host));
      if host == None || ValidHost(host.value) then r == Ok(Code(code.topic, code.secret, host, Url)) else r.Err?
  {
    hide Trim, ParseUrl, AfterScheme, ParseHuman, ValidHost, UrlSpelling, StartsWith, Base58, WordList;
    var rest := AfterScheme(t, code, host);
    TopicParses(t, code, host);
    UrlSurvivesTrim(t, code, host);
    if host == None || ValidHost(host.value) {
      AfterSchemeParses(t, code, host);
    } else if ParseUrl(t, rest).Ok? {
      var other := ParseUrl(t, rest).code;
      ParsedIsPrinted(t, rest, other);
      SameSpellingSameHost(t, code, host, other, other.relayHost);
    }
  }

  /** The words of a code, as the human spelling joins them. */
  function HumanText(t: Tables, channel: string, code: Code): string
    requires |code.secret| == 3 && |t.words| == 256
  {
    channel + "-" + t.words[code.secret[1]] + "-" + t.words[code.secret[2]]
  }

  lemma WordsArePlain(t: Tables, i: nat)
    requires WordList(t.words) && i < 256
    ensures '-' !in t.words[i] && t.words[i] != "" && !IsSpace(t.words[i][|t.words[i]| - 1])
  {
    var w := t.words[i];
    assert w[|w| - 1] in w;
  }

  lemma BytesArePlain(s: string)
    requires ParseByte(s).Some?
    ensures s != "" && '-' !in s && !IsSpace(s[0]) && s[0] != 'b'
  {
    if s[0] == '+' {
      assert s == [s[0]] + s[1..];
    }
  }

  /** Any channel text that denotes the channel byte, with the code's words, parses to the code. */
  lemma HumanTextParses(t: Tables, channel: string, code: Code)
    requires Sound(t) && IsCode(t, code) && code.spelling.Human?
    requires ParseByte(channel) == Some(code.secret[0])
    ensures Parse(t, HumanText(t, channel, code)) == Ok(code)
    ensures Trim(HumanText(t, channel, code)) == HumanText(t, channel, code)
    ensures !StartsWith(HumanText(t, channel, code), SCHEME)
  {
    hide ParseByte, Split, Base58;
    var s := HumanText(t, channel, code);
    var i, j := code.secret[1], code.secret[2];
    BytesArePlain(channel);
    WordsArePlain(t, i);
    WordsArePlain(t, j);
    assert s[0] == channel[0] && s[|s| - 1] == t.words[j][|t.words[j]| - 1];
    TrimNothing(s);
    ThreeParts(channel, '-', t.words[i], t.words[j]);
    hide IsSpace, Trim, WordList;
    IndexOfExact(t.words, t.words[i], 0);
    IndexOfExact(t.words, t.words[j], 0);
    assert code.secret == [code.secret[0], i, j];
  }

  /** A human spelling that parses consists of a channel text and the code's own words. */
  lemma ParsedHuman(t: Tables, s: string, code: Code) returns (channel: string)
    requires Sound(t) && ParseHuman(t, s) == Ok(code)
    ensures code.spelling.Human? && IsCode(t, code)
    ensures ParseByte(channel) == Some(code.secret[0]) && s == HumanText(t, channel, code)
  {
    hide ParseByte, Base58, Split;
    var parts := Split(s, '-');
    SplitJoins(s, '-');
    IndexOfExact(t.words, parts[1], 0);
    IndexOfExact(t.words, parts[2], 0);
    assert parts[1..][1..] == [parts[2]];
    assert Joined(parts[1..], '-') == parts[1] + "-" + parts[2];
    channel := parts[0];
    assert s == channel + "-" + (parts[1] + "-" + parts[2]);
  }

  /** Every code, printed, parses back to itself. */
  lemma PrintedParses(t: Tables, code: Code)
    requires Sound(t) && IsCode(t, code)
    ensures Parse(t, Print(t, code)) == Ok(code)
  {
    hide Parse;
    if code.spelling.Human? {
      DecimalParses(code.secret[0]);
      HumanTextParses(t, Decimal(code.secret[0]), code);
    } else {
      UrlSpellingParses(t, code, code.relayHost);
    }
  }

  /** What parses to `code`, around surrounding white space: for a URL the printed form alone; for a
      human code the printed form up to a plus sign and leading zeros in the channel. */
  lemma ParsesExactly(t: Tables, text: string, code: Code)
    requires Sound(t)
    ensures Parse(t, text) == Ok(code) <==>
            && IsCode(t, code)
            && if code.spelling.Url? then Trim(text) == Print(t, code)
               else exists channel :: ParseByte(channel) == Some(code.secret[0])
                                      && Trim(text) == HumanText(t, channel, code)
  {
    hide Trim, ParseByte, ParseUrl, ParseHuman, Base58, AfterScheme, StartsWith;
    var s := Trim(text);
    if Parse(t, text) == Ok(code) {
      if StartsWith(s, SCHEME) {
        SchemeCut(s);
        ParsedIsPrinted(t, s[|SCHEME|..], code);
      } else {
        var channel := ParsedHuman(t, s, code);
      }
    }
    if IsCode(t, code) && code.spelling.Url? && s == Print(t, code) {
      TopicParses(t, code, None);
      UrlSurvivesTrim(t, code, code.relayHost);
      PrintedParses(t, code);
    }
    if IsCode(t, code) && code.spelling.Human? {
      if channel :| ParseByte(channel) == Some(code.secret[0]) && s == HumanText(t, channel, code) {
        HumanTextParses(t, channel, code);
      }
    }
  }

  lemma SchemeCut(s: string)
    requires StartsWith(s, SCHEME)
    ensures |SCHEME| <= |s| && s == SCHEME + s[|SCHEME|..]
  {
  }

  /** The classifier accepts every text that parses; what it accepts beyond that are broken URLs. */
  lemma RecognisedExactly(t: Tables, text: string)
    requires Sound(t)
    ensures IsRendezvousCode(t, text) <==> Parse(t, text).Ok? || StartsWith(Trim(text), SCHEME)
  {
    hide Trim, ParseByte, ParseUrl, StartsWith, Split, IndexOf;
  }
}
