/** Baking a badge into the chunks of a PNG image, and reading it back. */
module PngBakery {
  import opened Basics

  newtype byte = x: int | 0 <= x < 256

  type Bytes = seq<byte>

  datatype Chunk = Chunk(kind: string, content: Bytes)

  function Ascii(s: string): Bytes
    requires forall c | c in s :: c < 128 as char
  {
    seq(|s|, i requires 0 <= i < |s| => assert s[i] in s; s[i] as byte)
  }

  const OPEN_BADGES: Bytes := Ascii("openbadges")
  const CREDENTIAL: Bytes := Ascii("openbadgecredential")

  predicate StartsWith(content: Bytes, keyword: Bytes) {
    keyword + [0] <= content
  }

  // ---------- Reading ----------

  function DropZeros(s: Bytes): (r: Bytes)
    ensures |r| <= |s|
  {
    if s != [] && s[0] == 0 then DropZeros(s[1..]) else s
  }

  /** Replace by nothing every occurrence of the keyword followed by zeros, leftmost first and as many zeros as
      there are. */
  function Erase(keyword: Bytes, s: Bytes): Bytes
    decreases |s|
  {
    if s == [] then []
    else if StartsWith(s, keyword) then
      assert DropZeros(s[|keyword|..]) == DropZeros(s[|keyword| + 1..]);
      Erase(keyword, DropZeros(s[|keyword|..]))
    else [s[0]] + Erase(keyword, s[1..])
  }

  function UntilZero(s: Bytes): Bytes {
    if s == [] || s[0] == 0 then [] else [s[0]] + UntilZero(s[1..])
  }

  /** The second field of a zero-separated text. */
  function SecondField(keyword: Bytes, content: Bytes): Bytes
    requires StartsWith(content, keyword)
  {
    UntilZero(content[|keyword| + 1..])
  }

  predicate Carries(c: Chunk) {
    (c.kind == "iTXt" || c.kind == "tEXt") && (StartsWith(c.content, OPEN_BADGES) || StartsWith(c.content, CREDENTIAL))
  }

  function Extract(c: Chunk): Bytes
    requires Carries(c)
  {
    if c.kind == "iTXt" && StartsWith(c.content, OPEN_BADGES) then Erase(OPEN_BADGES, c.content)
    else if c.kind == "tEXt" && StartsWith(c.content, OPEN_BADGES) then SecondField(OPEN_BADGES, c.content)
    else if c.kind == "iTXt" && StartsWith(c.content, CREDENTIAL) then Erase(CREDENTIAL, c.content)
    else SecondField(CREDENTIAL, c.content)
  }

  function Unbake(chunks: seq<Chunk>): Option<Bytes> {
    if chunks == [] then None
    else if Carries(chunks[0]) then Some(Extract(chunks[0]))
    else Unbake(chunks[1..])
  }

  // ---------- Writing ----------

  predicate PreviousAssertion(c: Chunk) {
    StartsWith(c.content, OPEN_BADGES) || StartsWith(c.content, CREDENTIAL)
  }

  function Others(chunks: seq<Chunk>): seq<Chunk> {
    if chunks == [] then []
    else (if PreviousAssertion(chunks[0]) then [] else [chunks[0]]) + Others(chunks[1..])
  }

  function BadgeChunk(payload: Bytes): Chunk {
    Chunk("iTXt", CREDENTIAL + [0, 0, 0, 0, 0] + payload)
  }

  function BakedChunks(chunks: seq<Chunk>, badge: Chunk): Option<seq<Chunk>> {
    if chunks == [] then None else Some([chunks[0], badge] + Others(chunks[1..]))
  }

  function Bake(chunks: seq<Chunk>, payload: Bytes): Option<seq<Chunk>> {
    BakedChunks(chunks, BadgeChunk(payload))
  }

  // ---------- Erasing ----------

  ghost predicate Occurs(pattern: Bytes, s: Bytes) {
    exists i :: 0 <= i <= |s| && pattern <= s[i..]
  }

  lemma {:induction false} EraseExactly(keyword: Bytes, s: Bytes)
    requires keyword != []
    ensures |Erase(keyword, s)| <= |s|
    ensures Erase(keyword, s) == s <==> !Occurs(keyword + [0], s)
    decreases |s|
  {
    var pattern := keyword + [0];
    if s == [] {
      assert forall i | 0 <= i <= |s| :: s[i..] == [];
    } else if StartsWith(s, keyword) {
      assert s[0..] == s;
      assert DropZeros(s[|keyword|..]) == DropZeros(s[|keyword| + 1..]);
      EraseExactly(keyword, DropZeros(s[|keyword|..]));
    } else {
      EraseExactly(keyword, s[1..]);
      if Occurs(pattern, s) {
        var i :| 0 <= i <= |s| && pattern <= s[i..];
        assert i > 0 by {
          assert s[0..] == s;
        }
        assert s[1..][i - 1..] == s[i..];
      }
      if Occurs(pattern, s[1..]) {
        var i :| 0 <= i <= |s[1..]| && pattern <= s[1..][i..];
        assert s[i + 1..] == s[1..][i..];
      }
    }
  }

  lemma {:induction false} DropZerosOfZeros(n: nat, s: Bytes)
    ensures DropZeros(seq(n, _ => 0 as byte) + s) == DropZeros(s)
  {
    var zeros := seq(n, _ => 0 as byte);
    if n == 0 {
      assert zeros + s == s;
    } else {
      DropZerosOfZeros(n - 1, s);
      assert (zeros + s)[1..] == seq(n - 1, _ => 0 as byte) + s;
    }
  }

  lemma StartsExactly(keyword: Bytes, rest: Bytes)
    requires keyword == OPEN_BADGES || keyword == CREDENTIAL
    ensures StartsWith(keyword + [0] + rest, OPEN_BADGES) <==> keyword == OPEN_BADGES
    ensures StartsWith(keyword + [0] + rest, CREDENTIAL) <==> keyword == CREDENTIAL
  {
    var content := keyword + [0] + rest;
    assert content[..|keyword| + 1] == keyword + [0];
    assert OPEN_BADGES[9] == 's' as byte && CREDENTIAL[9] == 'c' as byte;
    assert (OPEN_BADGES + [0])[9] == OPEN_BADGES[9] && (CREDENTIAL + [0])[9] == CREDENTIAL[9];
    assert content[9] == keyword[9];
  }

  /** From an iTXt chunk with either keyword, everything behind the zeros is read, zeros included. */
  lemma ExtractInternational(keyword: Bytes, n: nat, text: Bytes)
    requires (keyword == OPEN_BADGES || keyword == CREDENTIAL)
    requires (text == [] || text[0] != 0) && !Occurs(keyword + [0], text)
    ensures var c := Chunk("iTXt", keyword + [0] + (seq(n, _ => 0 as byte) + text));
            Carries(c) && Extract(c) == text
  {
    var rest := seq(n, _ => 0 as byte) + text;
    var content := keyword + [0] + rest;
    StartsExactly(keyword, rest);
    assert content[|keyword|..] == [0] + rest;
    assert ([0] + rest)[1..] == rest;
    DropZerosOfZeros(n, text);
    EraseExactly(keyword, text);
  }

  /** What is read from a badge chunk of either type with either keyword: from tEXt the text up to the next zero,
      from iTXt everything behind the zeros. */
  lemma ExtractExactly(keyword: Bytes, text: Bytes, rest: Bytes)
    requires (keyword == OPEN_BADGES || keyword == CREDENTIAL) && 0 !in text
    ensures var c := Chunk("tEXt", keyword + [0] + (text + [0] + rest));
            Carries(c) && Extract(c) == text
    ensures var c := Chunk("tEXt", keyword + [0] + text);
            Carries(c) && Extract(c) == text
    ensures var c := Chunk("iTXt", keyword + [0] + text);
            Carries(c) && Extract(c) == text
  {
    StartsExactly(keyword, text + [0] + rest);
    StartsExactly(keyword, text);
    UntilZeroOf(text, rest);
    UntilZeroOf(text, []);
    UntilZeroWhole(text);
    assert (keyword + [0] + (text + [0] + rest))[|keyword| + 1..] == text + [0] + rest;
    assert (keyword + [0] + text)[|keyword| + 1..] == text;
    ExtractTail(keyword, text);
  }

  lemma {:induction false} UntilZeroWhole(s: Bytes)
    requires 0 !in s
    ensures UntilZero(s) == s
  {
    if s != [] {
      UntilZeroWhole(s[1..]);
    }
  }

  lemma ExtractTail(keyword: Bytes, text: Bytes)
    requires (keyword == OPEN_BADGES || keyword == CREDENTIAL) && 0 !in text
    ensures var c := Chunk("iTXt", keyword + [0] + text);
            Carries(c) && Extract(c) == text
  {
    if i :| 0 <= i <= |text| && keyword + [0] <= text[i..] {
      PatternHasZero(keyword, text[i..]);
    } else {
      assert seq(0, _ => 0 as byte) + text == text;
      ExtractInternational(keyword, 0, text);
    }
  }

  /** Only chunks of these two types with one of these two keywords are badges. */
  lemma CarriesExactly(c: Chunk)
    ensures Carries(c) <==>
              && c.kind in {"iTXt", "tEXt"}
              && exists rest: Bytes :: c.content == OPEN_BADGES + [0] + rest || c.content == CREDENTIAL + [0] + rest
  {
    if StartsWith(c.content, OPEN_BADGES) {
      assert c.content == OPEN_BADGES + [0] + c.content[|OPEN_BADGES| + 1..];
    }
    if StartsWith(c.content, CREDENTIAL) {
      assert c.content == CREDENTIAL + [0] + c.content[|CREDENTIAL| + 1..];
    }
  }

  lemma KeywordsDiffer(payload: Bytes)
    ensures Carries(BadgeChunk(payload)) && PreviousAssertion(BadgeChunk(payload))
    ensures !StartsWith(BadgeChunk(payload).content, OPEN_BADGES)
  {
    var content := BadgeChunk(payload).content;
    assert (CREDENTIAL + [0])[..] == content[..|CREDENTIAL| + 1];
    assert content[9] == CREDENTIAL[9] && (OPEN_BADGES + [0])[9] == OPEN_BADGES[9];
    assert OPEN_BADGES[9] != CREDENTIAL[9];
  }

  lemma ExtractBadge(payload: Bytes)
    ensures Carries(BadgeChunk(payload))
    ensures Extract(BadgeChunk(payload)) == Erase(CREDENTIAL, DropZeros(payload))
  {
    KeywordsDiffer(payload);
    var content := BadgeChunk(payload).content;
    assert content[|CREDENTIAL|..] == seq(5, _ => 0 as byte) + payload;
    DropZerosOfZeros(5, payload);
  }

  ghost predicate Retrievable(payload: Bytes) {
    (payload == [] || payload[0] != 0) && !Occurs(CREDENTIAL + [0], payload)
  }

  /** Exactly which payloads come back, when the first chunk (IHDR in any PNG) is not itself a badge: those that
      do not begin with a zero and do not contain the keyword followed by one. */
  lemma RoundTripExactly(chunks: seq<Chunk>, payload: Bytes)
    requires chunks != []
    ensures Bake(chunks, payload).Some?
    ensures !Carries(chunks[0]) ==> (Unbake(Bake(chunks, payload).value) == Some(payload) <==> Retrievable(payload))
    ensures Carries(chunks[0]) ==> Unbake(Bake(chunks, payload).value) == Some(Extract(chunks[0]))
  {
    var baked := Bake(chunks, payload).value;
    ExtractBadge(payload);
    assert baked[1..][0] == BadgeChunk(payload);
    EraseExactly(CREDENTIAL, DropZeros(payload));
  }

  lemma PatternHasZero(keyword: Bytes, s: Bytes)
    requires keyword + [0] <= s
    ensures 0 in s
  {
    assert s[|keyword|] == (keyword + [0])[|keyword|];
  }

  /** In particular all payloads without zeros. */
  lemma RoundTripText(chunks: seq<Chunk>, payload: Bytes)
    requires chunks != [] && !Carries(chunks[0]) && 0 !in payload
    ensures Unbake(Bake(chunks, payload).value) == Some(payload)
  {
    RoundTripExactly(chunks, payload);
    if i :| 0 <= i <= |payload| && CREDENTIAL + [0] <= payload[i..] {
      PatternHasZero(CREDENTIAL, payload[i..]);
    }
  }

  lemma {:induction false} OthersOfOthers(chunks: seq<Chunk>)
    ensures Others(Others(chunks)) == Others(chunks)
    ensures forall c | c in Others(chunks) :: c in chunks && !PreviousAssertion(c)
  {
    if chunks != [] {
      OthersOfOthers(chunks[1..]);
      var rest := Others(chunks[1..]);
      if !PreviousAssertion(chunks[0]) {
        assert ([chunks[0]] + rest)[1..] == rest;
      } else {
        assert [] + rest == rest;
      }
    }
  }

  /** Which chunks behind the first one survive, and how often. */
  lemma {:induction false} OthersExactly(chunks: seq<Chunk>, c: Chunk)
    ensures multiset(Others(chunks))[c]
         == if OPEN_BADGES + [0] <= c.content || CREDENTIAL + [0] <= c.content then 0 else multiset(chunks)[c]
  {
    if chunks != [] {
      OthersExactly(chunks[1..], c);
      var rest := Others(chunks[1..]);
      assert chunks == [chunks[0]] + chunks[1..];
      assert multiset([chunks[0]] + rest) == multiset{chunks[0]} + multiset(rest) && [] + rest == rest;
    }
  }

  /** Baking replaces whatever was baked before. */
  lemma BakeReplaces(chunks: seq<Chunk>, first: Bytes, second: Bytes)
    requires chunks != []
    ensures Bake(Bake(chunks, first).value, second) == Bake(chunks, second)
  {
    var baked := Bake(chunks, first).value;
    KeywordsDiffer(first);
    assert baked[1..] == [BadgeChunk(first)] + Others(chunks[1..]);
    assert baked[1..][1..] == Others(chunks[1..]);
    OthersOfOthers(chunks[1..]);
    assert [] + Others(chunks[1..]) == Others(chunks[1..]);
  }

  lemma OthersOfBaked(first: Chunk, badge: Chunk, rest: seq<Chunk>)
    requires PreviousAssertion(badge)
    ensures Others([first, badge] + rest) == (if PreviousAssertion(first) then [] else [first]) + Others(rest)
  {
    var baked := [first, badge] + rest;
    assert baked[1..] == [badge] + rest;
    assert baked[1..][1..] == rest;
    assert [] + Others(rest) == Others(rest);
  }

  /** Chunks that do not begin with a badge keyword all survive, in order, and no other badge does. */
  lemma OthersSurvive(chunks: seq<Chunk>, payload: Bytes)
    requires chunks != []
    ensures var baked := Bake(chunks, payload).value;
            && Others(baked) == Others(chunks)
            && baked[0] == chunks[0]
            && forall i | 1 <= i < |baked| :: PreviousAssertion(baked[i]) <==> i == 1
  {
    var baked := Bake(chunks, payload).value;
    var rest := Others(chunks[1..]);
    KeywordsDiffer(payload);
    OthersOfOthers(chunks[1..]);
    OthersOfBaked(chunks[0], BadgeChunk(payload), rest);
    forall i | 2 <= i < |baked|
      ensures !PreviousAssertion(baked[i])
    {
      assert baked[i] == rest[i - 2] && rest[i - 2] in rest;
    }
  }

  // ---------- The chunk layout ----------

  /** Fields of an iTXt chunk, section 11.3.4.5 of the PNG specification. */
  datatype InternationalText = InternationalText(
    keyword: Bytes, compressed: bool, compression: byte, language: Bytes, translated: Bytes, text: Bytes)

  function ParseText(content: Bytes): Option<InternationalText> {
    var keyword := UntilZero(content);
    var k := |keyword|;
    if k == 0 || k > 79 || k + 3 > |content| || content[k + 1] > 1 then None
    else
      var rest := content[k + 3..];
      var language := UntilZero(rest);
      if |language| >= |rest| then None
      else
        var last := rest[|language| + 1..];
        var translated := UntilZero(last);
        if |translated| >= |last| then None
        else Some(InternationalText(keyword, content[k + 1] == 1, content[k + 2], language, translated,
                                    last[|translated| + 1..]))
  }

  lemma {:induction false} UntilZeroOf(s: Bytes, rest: Bytes)
    requires 0 !in s
    ensures UntilZero(s + [0] + rest) == s
  {
    if s == [] {
      assert (s + [0] + rest)[0] == 0;
    } else {
      UntilZeroOf(s[1..], rest);
      assert (s + [0] + rest)[1..] == s[1..] + [0] + rest;
    }
  }

  /** A baked badge is an uncompressed iTXt chunk with the keyword, no language and no translated keyword, and
      the payload as its text, whatever bytes the payload has. */
  lemma BadgeLayout(payload: Bytes)
    ensures ParseText(BadgeChunk(payload).content)
         == Some(InternationalText(CREDENTIAL, false, 0, [], [], payload))
  {
    var content := BadgeChunk(payload).content;
    assert 0 !in CREDENTIAL;
    assert content == CREDENTIAL + [0] + ([0, 0, 0, 0] + payload);
    UntilZeroOf(CREDENTIAL, [0, 0, 0, 0] + payload);
    var k := |CREDENTIAL|;
    assert content[k + 3..] == [0, 0] + payload;
    assert ([0, 0] + payload)[1..] == [0] + payload;
    assert ([0] + payload)[1..] == payload;
  }

  // ---------- Which badge is read ----------

  /** The first chunk with a badge is the one read, whatever its type. */
  lemma {:induction false} FirstCarrierWins(before: seq<Chunk>, c: Chunk, after: seq<Chunk>)
    requires Carries(c) && forall d | d in before :: !Carries(d)
    ensures Unbake(before + [c] + after) == Some(Extract(c))
  {
    var all := before + [c] + after;
    if before != [] {
      FirstCarrierWins(before[1..], c, after);
      assert all[1..] == before[1..] + [c] + after;
    }
  }

  lemma {:induction false} FirstCarrierUpTo(chunks: seq<Chunk>, i: nat) returns (j: nat)
    requires i < |chunks| && Carries(chunks[i])
    ensures j <= i && FirstCarrier(chunks, j) && Unbake(chunks) == Some(Extract(chunks[j]))
    decreases i
  {
    if Carries(chunks[0]) {
      j := 0;
    } else {
      var k := FirstCarrierUpTo(chunks[1..], i - 1);
      j := k + 1;
      forall m | 0 <= m < j
        ensures !Carries(chunks[m])
      {
        assert m > 0 ==> chunks[m] == chunks[1..][m - 1];
      }
    }
  }

  predicate FirstCarrier(chunks: seq<Chunk>, j: nat) {
    j < |chunks| && Carries(chunks[j]) && forall k | 0 <= k < j :: !Carries(chunks[k])
  }

  predicate FirstInternational(chunks: seq<Chunk>, i: nat) {
    && i < |chunks| && Carries(chunks[i]) && chunks[i].kind == "iTXt"
    && forall k | 0 <= k < i :: !(Carries(chunks[k]) && chunks[k].kind == "iTXt")
  }

  /** The description of unbake says that an iTXt badge takes precedence over a tEXt one. Exactly when it does:
      no tEXt badge stands in front of it, or the first of those extracts to the same bytes. */
  lemma PrecedenceExactly(chunks: seq<Chunk>, i: nat)
    requires FirstInternational(chunks, i)
    ensures Unbake(chunks) == Some(Extract(chunks[i]))
        <==> forall j | 0 <= j < i && FirstCarrier(chunks, j) :: Extract(chunks[j]) == Extract(chunks[i])
    ensures forall j | 0 <= j < i && FirstCarrier(chunks, j) :: chunks[j].kind == "tEXt"
  {
    var first := FirstCarrierUpTo(chunks, i);
    forall j | 0 <= j <= i && FirstCarrier(chunks, j)
      ensures j == first
    {
    }
  }

  /** It does in every baked image whose first chunk is not a badge. */
  lemma PrecedenceWhenBaked(chunks: seq<Chunk>, payload: Bytes, i: nat)
    requires chunks != [] && !Carries(chunks[0]) && FirstInternational(Bake(chunks, payload).value, i)
    ensures i == 1 && Unbake(Bake(chunks, payload).value) == Some(Extract(BadgeChunk(payload)))
  {
    var baked := Bake(chunks, payload).value;
    KeywordsDiffer(payload);
    assert baked[0] == chunks[0] && baked[1] == BadgeChunk(payload);
    PrecedenceExactly(baked, i);
  }

  /** A tEXt badge in front of an iTXt one is read instead of it. */
  lemma TextBeforeInternationalText(header: Chunk, text: Bytes, payload: Bytes)
    requires !Carries(header)
    ensures var chunks := [header, Chunk("tEXt", OPEN_BADGES + [0] + text), BadgeChunk(payload)];
            && FirstInternational(chunks, 2)
            && Unbake(chunks) == Some(UntilZero(text))
            && Extract(chunks[2]) == Erase(CREDENTIAL, DropZeros(payload))
  {
    ExtractBadge(payload);
  }
}
