/** driverlib/spi.c: transfers of 8-, 16- and 32-bit words as one full-duplex exchange of bytes. */
module Spi {
  import opened Bits

  /** The bytes of a word the loops move at a time. */
  predicate Width(n: nat) { n == 1 || n == 2 || n == 4 }

  // ----- words in memory, least significant byte first

  function Value(b: seq<Byte>): nat {
    if b == [] then 0 else b[0] + 256 * Value(b[1..])
  }

  /** What storing a register into n bytes keeps of it. */
  function LowBytes(w: nat, n: nat): (b: seq<Byte>)
    ensures |b| == n
  {
    if n == 0 then [] else [w % 256] + LowBytes(w / 256, n - 1)
  }

  lemma {:induction false} LowBytesOfValue(b: seq<Byte>)
    ensures LowBytes(Value(b), |b|) == b
  {
    if b != [] {
      var d, r, w := b[0], Value(b[1..]), Value(b);
      LowDigit(d, r, w);
      LowBytesOfValue(b[1..]);
      assert LowBytes(w, |b|) == [d] + LowBytes(r, |b| - 1);
    }
  }

  lemma LowDigit(d: Byte, r: nat, w: nat)
    requires w == d + 256 * r
    ensures w % 256 == d && w / 256 == r
  {
  }

  function Ones(n: nat): (b: seq<Byte>)
    ensures |b| == n && forall i :: 0 <= i < n ==> b[i] == 255
  {
    seq(n, i => 255)
  }

  /** The whole words of n bytes in a buffer. */
  function Values(n: nat, stream: seq<Byte>): seq<nat>
    requires n > 0
  {
    if |stream| < n then [] else [Value(stream[..n])] + Values(n, stream[n..])
  }

  /** Words of n bytes as a buffer. */
  function BytesOf(n: nat, words: seq<nat>): seq<Byte> {
    if words == [] then [] else LowBytes(words[0], n) + BytesOf(n, words[1..])
  }

  lemma {:induction false} BytesOfValues(n: nat, stream: seq<Byte>)
    requires Width(n) && |stream| % n == 0
    ensures BytesOf(n, Values(n, stream)) == stream
    ensures |Values(n, stream)| == |stream| / n
  {
    if |stream| >= n {
      LowBytesOfValue(stream[..n]);
      BytesOfValues(n, stream[n..]);
      assert stream == stream[..n] + stream[n..];
    }
  }

  lemma SentBack(n: nat, before: seq<nat>, stream: seq<Byte>, sent: seq<nat>)
    requires Width(n) && |stream| % n == 0 && sent == before + Values(n, stream)
    ensures |sent| >= |before| && BytesOf(n, sent[|before|..]) == stream
  {
    BytesOfValues(n, stream);
    assert sent[|before|..] == Values(n, stream);
  }

  lemma {:induction false} BytesOfAppend(n: nat, words: seq<nat>, w: nat)
    ensures BytesOf(n, words + [w]) == BytesOf(n, words) + LowBytes(w, n)
  {
    if words == [] {
      assert words + [w] == [w] && BytesOf(n, []) == [];
      assert BytesOf(n, [w]) == LowBytes(w, n) + BytesOf(n, [w][1..]);
    } else {
      BytesOfAppend(n, words[1..], w);
      assert (words + [w])[1..] == words[1..] + [w];
      Assoc(LowBytes(words[0], n), BytesOf(n, words[1..]), LowBytes(w, n));
    }
  }

  // ----- word by word and byte by byte

  /** The half-word and the word at a place in memory. */
  function HalfIn(b: seq<Byte>, i: nat): (w: nat)
    requires i + 2 <= |b|
    ensures w == b[i] as nat + 256 * b[i + 1] as nat
  {
    ValueOfTwo(b[i..i + 2]);
    Value(b[i..i + 2])
  }

  function WordIn(b: seq<Byte>, i: nat): (w: nat)
    requires i + 4 <= |b|
    ensures w == b[i] as nat + 256 * b[i + 1] as nat + 0x1_0000 * b[i + 2] as nat + 0x100_0000 * b[i + 3] as nat
  {
    ValueOfFour(b[i..i + 4]);
    Value(b[i..i + 4])
  }

  lemma ValueOfTwo(b: seq<Byte>)
    requires |b| == 2
    ensures Value(b) == b[0] as nat + 256 * b[1] as nat
  {
    assert b[1..][1..] == [] && Value([]) == 0;
    assert Value(b[1..]) == b[1];
  }

  lemma ValueOfFour(b: seq<Byte>)
    requires |b| == 4
    ensures Value(b) == b[0] as nat + 256 * b[1] as nat + 0x1_0000 * b[2] as nat + 0x100_0000 * b[3] as nat
  {
    ValueOfTwo(b[2..]);
    assert b[1..][1..] == b[2..];
    assert Value(b[1..]) == b[1] + 256 * Value(b[2..]);
  }

  lemma {:induction false} ByteValueAt(stream: seq<Byte>, i: nat)
    requires i < |stream|
    ensures i < |Values(1, stream)| && Values(1, stream)[i] == stream[i]
  {
    if i == 0 {
      assert Value(stream[..1]) == stream[0] by { assert stream[..1][1..] == []; }
    } else {
      ByteValueAt(stream[1..], i - 1);
    }
  }

  lemma {:induction false} HalfValueAt(stream: seq<Byte>, i: nat)
    requires 2 * i + 2 <= |stream|
    ensures i < |Values(2, stream)| && Values(2, stream)[i] == stream[2 * i] as nat + 256 * stream[2 * i + 1] as nat
  {
    if i == 0 {
      ValueOfTwo(stream[..2]);
    } else {
      HalfValueAt(stream[2..], i - 1);
    }
  }

  lemma {:induction false} WordValueAt(stream: seq<Byte>, i: nat)
    requires 4 * i + 4 <= |stream|
    ensures i < |Values(4, stream)|
    ensures Values(4, stream)[i] == stream[4 * i] as nat + 256 * stream[4 * i + 1] as nat
                                    + 0x1_0000 * stream[4 * i + 2] as nat + 0x100_0000 * stream[4 * i + 3] as nat
  {
    if i == 0 {
      ValueOfFour(stream[..4]);
    } else {
      WordValueAt(stream[4..], i - 1);
    }
  }

  /** The k-th byte of a word in memory. */
  function Part(w: nat, k: nat): (b: Byte)
    ensures k == 0 ==> b == w % 256
    ensures k == 1 ==> b == w / 0x100 % 256
    ensures k == 2 ==> b == w / 0x1_0000 % 256
    ensures k == 3 ==> b == w / 0x100_0000 % 256
  {
    if k == 0 then w % 256 else Part(w / 256, k - 1)
  }

  lemma {:induction false} LowByteAt(w: nat, n: nat, k: nat)
    requires k < n
    ensures LowBytes(w, n)[k] == Part(w, k)
  {
    if k > 0 { LowByteAt(w / 256, n - 1, k - 1); }
  }

  // ----- the other end of the bus

  /** The bytes the peer's replies store: its answer to each word may depend on all words sent so far. */
  function Replies(peer: seq<nat> -> nat, before: seq<nat>, n: nat, words: seq<nat>): seq<Byte>
    decreases |words|
  {
    if words == [] then []
    else LowBytes(peer(before + [words[0]]), n) + Replies(peer, before + [words[0]], n, words[1..])
  }

  lemma RepliesStep(peer: seq<nat> -> nat, before: seq<nat>, n: nat, w: nat, more: seq<nat>)
    ensures Replies(peer, before, n, [w] + more)
         == LowBytes(peer(before + [w]), n) + Replies(peer, before + [w], n, more)
  {
    var words := [w] + more;
    assert words[0] == w && words[1..] == more;
  }

  lemma RepliesFill(peer: seq<nat> -> nat, before: seq<nat>, n: nat, stream: seq<Byte>)
    requires Width(n) && |stream| % n == 0
    ensures |Replies(peer, before, n, Values(n, stream))| == |stream|
  {
    var words := Values(n, stream);
    BytesOfValues(n, stream);
    RepliesLength(peer, before, n, words);
    StartOf(n, |words|);
  }

  /** Where word i starts. */
  function Start(n: nat, i: nat): nat {
    if i == 0 then 0 else n + Start(n, i - 1)
  }

  lemma {:induction false} StartOf(n: nat, i: nat)
    requires Width(n)
    ensures Start(n, i) == n * i
  {
    if i > 0 { StartOf(n, i - 1); }
  }

  /** Byte k of what is stored for word i comes from the reply to that word. */
  lemma {:induction false} ReplyAt(peer: seq<nat> -> nat, before: seq<nat>, n: nat, words: seq<nat>, i: nat, k: nat)
    requires k < n && i < |words|
    ensures Start(n, i) + k < |Replies(peer, before, n, words)|
    ensures Replies(peer, before, n, words)[Start(n, i) + k] == Part(peer(before + words[..i + 1]), k)
    decreases i
  {
    var w, more := words[0], words[1..];
    var head, tail := LowBytes(peer(before + [w]), n), Replies(peer, before + [w], n, more);
    assert Replies(peer, before, n, words) == head + tail;
    if i == 0 {
      LowByteAt(peer(before + [w]), n, k);
      assert words[..1] == [w];
    } else {
      ReplyAt(peer, before + [w], n, more, i - 1, k);
      TakeFirst(before, words, i);
      assert (head + tail)[Start(n, i) + k] == tail[Start(n, i - 1) + k];
    }
  }

  lemma TakeFirst(before: seq<nat>, words: seq<nat>, i: nat)
    requires 0 < i < |words|
    ensures before + [words[0]] + words[1..][..i] == before + words[..i + 1]
  {
  }

  /** The answers of a peer that sees single bytes: each may depend on all bytes before it and on the byte itself. */
  function Answers(f: seq<Byte> -> Byte, before: seq<Byte>, bytes: seq<Byte>): (r: seq<Byte>)
    ensures |r| == |bytes|
    decreases |bytes|
  {
    if bytes == [] then [] else [f(before + [bytes[0]])] + Answers(f, before + [bytes[0]], bytes[1..])
  }

  lemma {:induction false} AnswersSplit(f: seq<Byte> -> Byte, before: seq<Byte>, a: seq<Byte>, b: seq<Byte>)
    ensures Answers(f, before, a + b) == Answers(f, before, a) + Answers(f, before + a, b)
    decreases |a|
  {
    if a == [] {
      assert a + b == b && before + a == before;
    } else {
      assert (a + b)[1..] == a[1..] + b;
      assert before + [a[0]] + a[1..] == before + a by { Assoc(before, [a[0]], a[1..]); assert [a[0]] + a[1..] == a; }
      AnswersSplit(f, before + [a[0]], a[1..], b);
      Assoc([f(before + [a[0]])], Answers(f, before + [a[0]], a[1..]), Answers(f, before + a, b));
    }
  }

  /** The same peer on a bus of n-byte words. */
  function PeerOf(n: nat, f: seq<Byte> -> Byte): seq<nat> -> nat {
    (s: seq<nat>) => if s == [] then 0 else Value(Answers(f, BytesOf(n, s[..|s| - 1]), LowBytes(s[|s| - 1], n)))
  }

  /** The word length cannot be seen in the bytes received: they are the peer's answers to the bytes sent. */
  lemma {:induction false} WidthInvisible(f: seq<Byte> -> Byte, before: seq<nat>, n: nat, stream: seq<Byte>)
    requires Width(n) && |stream| % n == 0
    ensures Replies(PeerOf(n, f), before, n, Values(n, stream)) == Answers(f, BytesOf(n, before), stream)
    decreases |stream|
  {
    if |stream| < n {
      assert stream == [] && Values(n, stream) == [];
    } else {
      var b, rest := stream[..n], stream[n..];
      assert stream == b + rest;
      WidthInvisible(f, before + [Value(b)], n, rest);
      FirstAnswers(f, before, n, b, rest, Values(n, rest));
    }
  }

  lemma FirstAnswers(f: seq<Byte> -> Byte, before: seq<nat>, n: nat, b: seq<Byte>, rest: seq<Byte>, more: seq<nat>)
    requires |b| == n
    requires Replies(PeerOf(n, f), before + [Value(b)], n, more) == Answers(f, BytesOf(n, before + [Value(b)]), rest)
    ensures Replies(PeerOf(n, f), before, n, [Value(b)] + more) == Answers(f, BytesOf(n, before), b + rest)
  {
    RepliesStep(PeerOf(n, f), before, n, Value(b), more);
    PeerAnswer(f, before, n, b);
    BytesOfAppend(n, before, Value(b));
    LowBytesOfValue(b);
    AnswersSplit(f, BytesOf(n, before), b, rest);
  }

  lemma PeerAnswer(f: seq<Byte> -> Byte, before: seq<nat>, n: nat, b: seq<Byte>)
    requires |b| == n
    ensures LowBytes(PeerOf(n, f)(before + [Value(b)]), n) == Answers(f, BytesOf(n, before), b)
  {
    var s := before + [Value(b)];
    assert s[..|s| - 1] == before;
    LowBytesOfValue(b);
    LowBytesOfValue(Answers(f, BytesOf(n, before), b));
  }

  lemma TakeSum(a: seq<nat>, b: seq<nat>, i: nat)
    requires i <= |b|
    ensures (a + b)[..|a| + i] == a + b[..i]
  {
  }

  lemma BytesSent(before: seq<nat>, n: nat, stream: seq<Byte>, sent: seq<nat>)
    requires n == 1 && |stream| % 1 == 0 && sent == before + Values(n, stream)
    ensures |sent| == |before| + |stream| / 1 && sent[..|before|] == before
    ensures forall k :: |before| <= k < |sent| ==>
              sent[k] == stream[k - |before|]
    ensures (forall i :: 0 <= i < |stream| ==> stream[i] == 0xFF) ==>
              forall k :: |before| <= k < |sent| ==> sent[k] == 0xFF
  {
    BytesOfValues(n, stream);
    forall k | |before| <= k < |sent|
      ensures sent[k] == stream[k - |before|]
    {
      ByteValueAt(stream, k - |before|);
    }
  }

  lemma HalvesSent(before: seq<nat>, n: nat, stream: seq<Byte>, sent: seq<nat>)
    requires n == 2 && |stream| % 2 == 0 && sent == before + Values(n, stream)
    ensures |sent| == |before| + |stream| / 2 && sent[..|before|] == before
    ensures forall k :: |before| <= k < |sent| ==>
              sent[k] == HalfIn(stream, 2 * (k - |before|))
    ensures (forall i :: 0 <= i < |stream| ==> stream[i] == 0xFF) ==>
              forall k :: |before| <= k < |sent| ==> sent[k] == 0xFFFF
  {
    BytesOfValues(n, stream);
    forall k | |before| <= k < |sent|
      ensures sent[k] == HalfIn(stream, 2 * (k - |before|))
    {
      HalfValueAt(stream, k - |before|);
    }
  }

  lemma WordsSent(before: seq<nat>, n: nat, stream: seq<Byte>, sent: seq<nat>)
    requires n == 4 && |stream| % 4 == 0 && sent == before + Values(n, stream)
    ensures |sent| == |before| + |stream| / 4 && sent[..|before|] == before
    ensures forall k :: |before| <= k < |sent| ==>
              sent[k] == WordIn(stream, 4 * (k - |before|))
    ensures (forall i :: 0 <= i < |stream| ==> stream[i] == 0xFF) ==>
              forall k :: |before| <= k < |sent| ==> sent[k] == 0xFFFF_FFFF
  {
    BytesOfValues(n, stream);
    forall k | |before| <= k < |sent|
      ensures sent[k] == WordIn(stream, 4 * (k - |before|))
    {
      WordValueAt(stream, k - |before|);
      assert sent[k] == Values(n, stream)[k - |before|];
    }
  }

  lemma GotAt(peer: seq<nat> -> nat, before: seq<nat>, n: nat, words: seq<nat>, sent: seq<nat>, got: seq<Byte>, i: nat,
              k: nat, j: nat)
    requires sent == before + words && got == Replies(peer, before, n, words)
    requires i < |words| && k < n && j == Start(n, i) + k
    ensures j < |got| && got[j] == Part(peer(sent[..|before| + i + 1]), k)
  {
    ReplyAt(peer, before, n, words, i, k);
    TakeSum(before, words, i + 1);
    assert sent[..|before| + i + 1] == before + words[..i + 1];
  }

  lemma {:induction false} RepliesLength(peer: seq<nat> -> nat, before: seq<nat>, n: nat, words: seq<nat>)
    ensures |Replies(peer, before, n, words)| == Start(n, |words|)
    decreases |words|
  {
    if words != [] {
      RepliesStep(peer, before, n, words[0], words[1..]);
      assert words == [words[0]] + words[1..];
      RepliesLength(peer, before + [words[0]], n, words[1..]);
    }
  }

  lemma Joined(got: seq<Byte>, was: seq<Byte>, n: nat, din: seq<Byte>)
    requires |got| == n <= |was| && din == got + was[n..]
    ensures |din| == |was|
    ensures forall j :: 0 <= j < |din| ==> din[j] == if j < n then got[j] else was[j]
  {
  }

  lemma BytesStored(peer: seq<nat> -> nat, before: seq<nat>, n: nat, stream: seq<Byte>, sent: seq<nat>, din: seq<Byte>,
                     was: seq<Byte>)
    requires n == 1 && |stream| % 1 == 0 && |stream| <= |was| && sent == before + Values(n, stream)
    requires |sent| == |before| + |stream|
    requires din == Replies(peer, before, n, Values(n, stream)) + was[|stream|..]
    ensures |din| == |was| && forall j :: |stream| <= j < |din| ==> din[j] == was[j]
    ensures forall j :: 0 <= j < |stream| ==> din[j] == Part(peer(sent[..|before| + j + 1]), 0)
  {
    var words := Values(n, stream);
    var got := Replies(peer, before, n, words);
    RepliesFill(peer, before, n, stream);
    BytesGot(peer, before, n, words, sent, got);
    Joined(got, was, |stream|, din);
  }

  lemma BytesGot(peer: seq<nat> -> nat, before: seq<nat>, n: nat, words: seq<nat>, sent: seq<nat>, got: seq<Byte>)
    requires n == 1 && sent == before + words && got == Replies(peer, before, n, words)
    ensures |got| == |words|
    ensures forall j :: 0 <= j < |got| ==> got[j] == Part(peer(sent[..|before| + j + 1]), 0)
  {
    RepliesLength(peer, before, n, words);
    StartOf(n, |words|);
    forall j | 0 <= j < |got| ensures got[j] == Part(peer(sent[..|before| + j + 1]), 0) {
      PlaceInBytes(j);
      GotAt(peer, before, n, words, sent, got, j, 0, j);
    }
  }

  lemma PlaceInBytes(j: nat)
    ensures j == Start(1, j) + 0
  {
    StartOf(1, j);
  }

  lemma HalvesStored(peer: seq<nat> -> nat, before: seq<nat>, n: nat, stream: seq<Byte>, sent: seq<nat>, din: seq<Byte>,
                     was: seq<Byte>)
    requires n == 2 && |stream| % 2 == 0 && |stream| <= |was| && sent == before + Values(n, stream)
    requires |sent| == |before| + |stream| / 2
    requires din == Replies(peer, before, n, Values(n, stream)) + was[|stream|..]
    ensures |din| == |was| && forall j :: |stream| <= j < |din| ==> din[j] == was[j]
    ensures forall j :: 0 <= j < |stream| ==> din[j] == Part(peer(sent[..|before| + j / 2 + 1]), j % 2)
  {
    var words := Values(n, stream);
    var got := Replies(peer, before, n, words);
    RepliesFill(peer, before, n, stream);
    HalvesGot(peer, before, n, words, sent, got);
    Joined(got, was, |stream|, din);
  }

  lemma HalvesGot(peer: seq<nat> -> nat, before: seq<nat>, n: nat, words: seq<nat>, sent: seq<nat>, got: seq<Byte>)
    requires n == 2 && sent == before + words && got == Replies(peer, before, n, words)
    ensures |got| == 2 * |words|
    ensures forall j :: 0 <= j < |got| ==> got[j] == Part(peer(sent[..|before| + j / 2 + 1]), j % 2)
  {
    RepliesLength(peer, before, n, words);
    StartOf(n, |words|);
    forall j | 0 <= j < |got| ensures got[j] == Part(peer(sent[..|before| + j / 2 + 1]), j % 2) {
      HalvesGotAt(peer, before, n, words, sent, got, j);
    }
  }

  lemma HalvesGotAt(peer: seq<nat> -> nat, before: seq<nat>, n: nat, words: seq<nat>, sent: seq<nat>, got: seq<Byte>,
                   j: nat)
    requires n == 2 && sent == before + words && got == Replies(peer, before, n, words) && j < 2 * |words|
    ensures j < |got| && got[j] == Part(peer(sent[..|before| + j / 2 + 1]), j % 2)
  {
    var i, k := j / 2, j % 2;
    PlaceInHalves(j, |words|);
    GotAt(peer, before, n, words, sent, got, i, k, j);
  }

  lemma PlaceInHalves(j: nat, m: nat)
    requires j < 2 * m
    ensures j / 2 < m && j % 2 < 2 && j == Start(2, j / 2) + j % 2
  {
    StartOf(2, j / 2);
  }

  lemma WordsStored(peer: seq<nat> -> nat, before: seq<nat>, n: nat, stream: seq<Byte>, sent: seq<nat>, din: seq<Byte>,
                     was: seq<Byte>)
    requires n == 4 && |stream| % 4 == 0 && |stream| <= |was| && sent == before + Values(n, stream)
    requires |sent| == |before| + |stream| / 4
    requires din == Replies(peer, before, n, Values(n, stream)) + was[|stream|..]
    ensures |din| == |was| && forall j :: |stream| <= j < |din| ==> din[j] == was[j]
    ensures forall j :: 0 <= j < |stream| ==> din[j] == Part(peer(sent[..|before| + j / 4 + 1]), j % 4)
  {
    var words := Values(n, stream);
    var got := Replies(peer, before, n, words);
    RepliesFill(peer, before, n, stream);
    WordsGot(peer, before, n, words, sent, got);
    Joined(got, was, |stream|, din);
  }

  lemma WordsGot(peer: seq<nat> -> nat, before: seq<nat>, n: nat, words: seq<nat>, sent: seq<nat>, got: seq<Byte>)
    requires n == 4 && sent == before + words && got == Replies(peer, before, n, words)
    ensures |got| == 4 * |words|
    ensures forall j :: 0 <= j < |got| ==> got[j] == Part(peer(sent[..|before| + j / 4 + 1]), j % 4)
  {
    RepliesLength(peer, before, n, words);
    StartOf(n, |words|);
    forall j | 0 <= j < |got| ensures got[j] == Part(peer(sent[..|before| + j / 4 + 1]), j % 4) {
      WordsGotAt(peer, before, n, words, sent, got, j);
    }
  }

  lemma WordsGotAt(peer: seq<nat> -> nat, before: seq<nat>, n: nat, words: seq<nat>, sent: seq<nat>, got: seq<Byte>,
                   j: nat)
    requires n == 4 && sent == before + words && got == Replies(peer, before, n, words) && j < 4 * |words|
    ensures j < |got| && got[j] == Part(peer(sent[..|before| + j / 4 + 1]), j % 4)
  {
    var i, k := j / 4, j % 4;
    PlaceInWords(j, |words|);
    GotAt(peer, before, n, words, sent, got, i, k, j);
  }

  lemma PlaceInWords(j: nat, m: nat)
    requires j < 4 * m
    ensures j / 4 < m && j % 4 < 4 && j == Start(4, j / 4) + j % 4
  {
    StartOf(4, j / 4);
  }

  // ----- a transfer part way

  /** `pos` bytes are exchanged: what has been sent so far, and what has been received. */
  ghost predicate Midway(peer: seq<nat> -> nat, n: nat, stream: seq<Byte>, before: seq<nat>,
                         pos: nat, sent: seq<nat>, got: seq<Byte>)
    requires n > 0
  {
    && pos == |got| <= |stream|
    && sent + Values(n, stream[pos..]) == before + Values(n, stream)
    && got + Replies(peer, sent, n, Values(n, stream[pos..])) == Replies(peer, before, n, Values(n, stream))
  }

  lemma MidwayStart(peer: seq<nat> -> nat, n: nat, stream: seq<Byte>, before: seq<nat>)
    requires n > 0
    ensures Midway(peer, n, stream, before, 0, before, [])
  {
    assert stream[0..] == stream;
    assert [] + Replies(peer, before, n, Values(n, stream)) == Replies(peer, before, n, Values(n, stream));
  }

  lemma MidwayStep(peer: seq<nat> -> nat, n: nat, stream: seq<Byte>, before: seq<nat>,
                   pos: nat, sent: seq<nat>, got: seq<Byte>)
    requires n > 0 && Midway(peer, n, stream, before, pos, sent, got) && pos + n <= |stream|
    ensures var sent' := sent + [Value(stream[pos..pos + n])];
            Midway(peer, n, stream, before, pos + n, sent', got + LowBytes(peer(sent'), n))
    ensures |Values(n, stream[pos..])| == 1 + |Values(n, stream[pos + n..])|
  {
    var rest := stream[pos..];
    assert rest[..n] == stream[pos..pos + n] && rest[n..] == stream[pos + n..];
    var w, more := Value(rest[..n]), Values(n, rest[n..]);
    assert Values(n, rest) == [w] + more;
    RepliesStep(peer, sent, n, w, more);
    Assoc(sent, [w], more);
    Assoc(got, LowBytes(peer(sent + [w]), n), Replies(peer, sent + [w], n, more));
  }

  lemma MidwayEnd(peer: seq<nat> -> nat, n: nat, stream: seq<Byte>, before: seq<nat>,
                  pos: nat, sent: seq<nat>, got: seq<Byte>)
    requires Width(n) && |stream| % n == 0 && Midway(peer, n, stream, before, pos, sent, got)
    requires Values(n, stream[pos..]) == []
    ensures pos == |stream| && sent == before + Values(n, stream) && got == Replies(peer, before, n, Values(n, stream))
  {
    RepliesFill(peer, before, n, stream);
  }

  // ----- the SPI module

  // word lengths in MCSPI_CH0CONF
  const WL_8: nat := 0x380
  const WL_16: nat := 0x780
  const WL_32: nat := 0xF80

  datatype Flags = Flags(csEnable: bool, csDisable: bool)

  /** The bytes a transfer sends: those of the buffer, or all ones without one. */
  function Outgoing(dout: array?<Byte>, count: nat): (b: seq<Byte>)
    requires dout != null ==> count <= dout.Length
    reads dout
    ensures |b| == count
    ensures dout == null ==> forall i :: 0 <= i < count ==> b[i] == 0xFF
    ensures dout != null ==> b == dout[..count]
  {
    if dout == null then Ones(count) else dout[..count]
  }

  /** Part way through, the source still holds what is to be sent, and the destination what has been received. */
  ghost predicate Buffers(dout: array?<Byte>, din: array?<Byte>, stream: seq<Byte>, pos: nat, got: seq<Byte>,
                          was: seq<Byte>)
    reads dout, din
  {
    && |got| == pos <= |stream|
    && (dout == null ==> stream == Ones(|stream|))
    && (dout != null ==> |stream| <= dout.Length && forall j :: pos <= j < |stream| ==> dout[j] == stream[j])
    && (din != null ==>
          && |stream| <= din.Length == |was|
          && (forall j :: 0 <= j < pos ==> din[j] == got[j])
          && (forall j :: |stream| <= j < |was| ==> din[j] == was[j]))
  }

  lemma BuffersEnd(dout: array?<Byte>, din: array?<Byte>, stream: seq<Byte>, got: seq<Byte>, was: seq<Byte>)
    requires Buffers(dout, din, stream, |stream|, got, was)
    ensures din != null ==> din[..] == got + was[|stream|..]
  {
  }

  /** Bytes per word, and whether SPITransfer accepts a length. */
  function Size(wordLength: nat): (n: nat)
    ensures Width(n)
  {
    if wordLength == WL_32 then 4 else if wordLength == WL_16 then 2 else 1
  }

  predicate Accepts(wordLength: nat, count: nat) {
    (wordLength == WL_8 || wordLength == WL_16 || wordLength == WL_32) && count % Size(wordLength) == 0
  }

  class SpiModule {
    const peer: seq<nat> -> nat
    /** The word-length field of CH0CONF and its chip-select force bit. */
    var wordLength: nat
    var force: bool
    /** All words written to TX0, and how many replies have been read from RX0. */
    var sent: seq<nat>
    var taken: nat
    /** Whether chip select was forced as each word was sent. */
    ghost var selected: seq<bool>
    var wait: nat

    constructor (peer: seq<nat> -> nat, wordLength: nat)
      ensures Quiet() && this.peer == peer && this.wordLength == wordLength
    {
      this.peer, this.wordLength := peer, wordLength;
      force, sent, taken, selected, wait := false, [], 0, [], 0;
    }

    /** Words written minus words read is 0 or 1. */
    ghost predicate Valid() reads this {
      taken <= |sent| <= taken + 1 && |selected| == |sent|
    }

    ghost predicate Quiet() reads this {
      Valid() && taken == |sent|
    }

    /** Polls CH0STAT until its flag is set. */
    method Await()
      modifies `wait
    {
      while wait > 0 { wait := wait - 1; }
    }

    /** TX0 is written only when no reply is outstanding. */
    method WriteTx(w: nat)
      requires Quiet()
      modifies `sent, `selected, `wait
      ensures Valid() && sent == old(sent) + [w] && selected == old(selected) + [force]
    {
      Await();
      sent, selected := sent + [w], selected + [force];
      var polls: nat :| true;
      wait := polls;
    }

    method ReadRx() returns (v: nat)
      requires Valid() && taken < |sent|
      modifies `taken, `wait
      ensures Quiet() && v == peer(sent)
    {
      Await();
      taken := taken + 1;
      v := peer(sent[..taken]);
      assert sent[..taken] == sent;
      var polls: nat :| true;
      wait := polls;
    }

    /** What a transfer of n-byte words does: the buffer's words go out in order while chip select is as asked, and
        exactly `count` bytes of replies are stored. */
    twostate predicate Transferred(n: nat, dout: array?<Byte>, din: array?<Byte>, count: nat, flags: Flags)
      requires Width(n)
      requires dout != null ==> count <= dout.Length
      requires din != null ==> count <= din.Length
      reads this, din
    {
      var cs := old(force) || flags.csEnable;
      && force == (cs && !flags.csDisable)
      && sent == old(sent) + Values(n, old(Outgoing(dout, count)))
      && (|old(sent)| <= |selected| && forall i :: |old(sent)| <= i < |selected| ==> selected[i] == cs)
      && (din != null ==>
            din[..] == Replies(peer, old(sent), n, Values(n, old(Outgoing(dout, count)))) + old(din[count..]))
    }

    method SPITransfer8(dout: array?<Byte>, din: array?<Byte>, count: nat, flags: Flags) returns (result: int)
      requires Quiet()
      requires dout != null ==> count <= dout.Length
      requires din != null ==> count <= din.Length
      modifies `sent, `taken, `selected, `wait, `force, din
      ensures Quiet() && result == 0 && Transferred(1, dout, din, count, flags)
      ensures result == 0 ==> |sent| == |old(sent)| + count && sent[..|old(sent)|] == old(sent)
      ensures result == 0 && dout == null ==> forall k :: |old(sent)| <= k < |sent| ==> sent[k] == 0xFF
      ensures result == 0 ==>
                var out := old(Outgoing(dout, count));
                forall k :: |old(sent)| <= k < |sent| ==>
                  sent[k] == out[k - |old(sent)|]
      ensures result == 0 && din != null ==>
                && (forall j :: 0 <= j < count ==> din[..][j] == Part(peer(sent[..|old(sent)| + j + 1]), 0))
                && (forall j :: count <= j < din.Length ==> din[..][j] == old(din[..])[j])
    {
      ghost var before, stream := sent, Outgoing(dout, count);
      ghost var was: seq<Byte> := if din == null then [] else din[..];
      TransferWords(1, dout, din, count, flags);
      BytesSent(before, 1, stream, sent);
      if din != null { BytesStored(peer, before, 1, stream, sent, din[..], was); }
      result := 0;
    }

    method SPITransfer16(dout: array?<Byte>, din: array?<Byte>, count: nat, flags: Flags) returns (result: int)
      requires Quiet()
      requires dout != null ==> count <= dout.Length
      requires din != null ==> count <= din.Length
      modifies `sent, `taken, `selected, `wait, `force, din
      ensures Quiet() && result == (if count % 2 == 0 then 0 else -1)
      ensures result == 0 ==> Transferred(2, dout, din, count, flags)
      ensures result != 0 ==> unchanged(this) && (din != null ==> unchanged(din))
      ensures result == 0 ==> |sent| == |old(sent)| + count / 2 && sent[..|old(sent)|] == old(sent)
      ensures result == 0 && dout == null ==> forall k :: |old(sent)| <= k < |sent| ==> sent[k] == 0xFFFF
      ensures result == 0 ==>
                var out := old(Outgoing(dout, count));
                forall k :: |old(sent)| <= k < |sent| ==>
                  sent[k] == HalfIn(out, 2 * (k - |old(sent)|))
      ensures result == 0 && din != null ==>
                && (forall j :: 0 <= j < count ==> din[..][j] == Part(peer(sent[..|old(sent)| + j / 2 + 1]), j % 2))
                && (forall j :: count <= j < din.Length ==> din[..][j] == old(din[..])[j])
    {
      if count % 2 != 0 { return -1; }
      ExchangeHalves(2, dout, din, count, flags);
      result := 0;
    }

    method ExchangeHalves(n: nat, dout: array?<Byte>, din: array?<Byte>, count: nat, flags: Flags)
      requires Quiet() && n == 2 && count % 2 == 0
      requires dout != null ==> count <= dout.Length
      requires din != null ==> count <= din.Length
      modifies `sent, `taken, `selected, `wait, `force, din
      ensures Quiet() && Transferred(n, dout, din, count, flags)
      ensures |sent| == |old(sent)| + count / 2 && sent[..|old(sent)|] == old(sent)
      ensures dout == null ==> forall k :: |old(sent)| <= k < |sent| ==> sent[k] == 0xFFFF
      ensures var out := old(Outgoing(dout, count));
              forall k :: |old(sent)| <= k < |sent| ==>
                  sent[k] == HalfIn(out, 2 * (k - |old(sent)|))
      ensures din != null ==>
                && (forall j :: 0 <= j < count ==> din[..][j] == Part(peer(sent[..|old(sent)| + j / 2 + 1]), j % 2))
                && (forall j :: count <= j < din.Length ==> din[..][j] == old(din[..])[j])
    {
      ghost var before, stream := sent, Outgoing(dout, count);
      ghost var was: seq<Byte> := if din == null then [] else din[..];
      TransferWords(n, dout, din, count, flags);
      HalvesSent(before, n, stream, sent);
      if din != null { HalvesStored(peer, before, n, stream, sent, din[..], was); }
    }

    method SPITransfer32(dout: array?<Byte>, din: array?<Byte>, count: nat, flags: Flags) returns (result: int)
      requires Quiet()
      requires dout != null ==> count <= dout.Length
      requires din != null ==> count <= din.Length
      modifies `sent, `taken, `selected, `wait, `force, din
      ensures Quiet() && result == (if count % 4 == 0 then 0 else -1)
      ensures result == 0 ==> Transferred(4, dout, din, count, flags)
      ensures result != 0 ==> unchanged(this) && (din != null ==> unchanged(din))
      ensures result == 0 ==> |sent| == |old(sent)| + count / 4 && sent[..|old(sent)|] == old(sent)
      ensures result == 0 && dout == null ==> forall k :: |old(sent)| <= k < |sent| ==> sent[k] == 0xFFFF_FFFF
      ensures result == 0 ==>
                var out := old(Outgoing(dout, count));
                forall k :: |old(sent)| <= k < |sent| ==>
                  sent[k] == WordIn(out, 4 * (k - |old(sent)|))
      ensures result == 0 && din != null ==>
                && (forall j :: 0 <= j < count ==> din[..][j] == Part(peer(sent[..|old(sent)| + j / 4 + 1]), j % 4))
                && (forall j :: count <= j < din.Length ==> din[..][j] == old(din[..])[j])
    {
      if count % 4 != 0 { return -1; }
      ExchangeWords(4, dout, din, count, flags);
      result := 0;
    }

    method ExchangeWords(n: nat, dout: array?<Byte>, din: array?<Byte>, count: nat, flags: Flags)
      requires Quiet() && n == 4 && count % 4 == 0
      requires dout != null ==> count <= dout.Length
      requires din != null ==> count <= din.Length
      modifies `sent, `taken, `selected, `wait, `force, din
      ensures Quiet() && Transferred(n, dout, din, count, flags)
      ensures |sent| == |old(sent)| + count / 4 && sent[..|old(sent)|] == old(sent)
      ensures dout == null ==> forall k :: |old(sent)| <= k < |sent| ==> sent[k] == 0xFFFF_FFFF
      ensures var out := old(Outgoing(dout, count));
              forall k :: |old(sent)| <= k < |sent| ==>
                  sent[k] == WordIn(out, 4 * (k - |old(sent)|))
      ensures din != null ==>
                && (forall j :: 0 <= j < count ==> din[..][j] == Part(peer(sent[..|old(sent)| + j / 4 + 1]), j % 4))
                && (forall j :: count <= j < din.Length ==> din[..][j] == old(din[..])[j])
    {
      ghost var before, stream := sent, Outgoing(dout, count);
      ghost var was: seq<Byte> := if din == null then [] else din[..];
      TransferWords(n, dout, din, count, flags);
      WordsSent(before, n, stream, sent);
      if din != null { WordsStored(peer, before, n, stream, sent, din[..], was); }
    }


    /** At every word length: the words sent, laid out in memory, are the bytes of the buffer. */
    method SPITransfer(dout: array?<Byte>, din: array?<Byte>, count: nat, flags: Flags) returns (result: int)
      requires Quiet()
      requires dout != null ==> count <= dout.Length
      requires din != null ==> count <= din.Length
      modifies `sent, `taken, `selected, `wait, `force, din
      ensures Quiet() && result == (if Accepts(wordLength, count) then 0 else -1)
      ensures result == 0 ==>
                && Transferred(Size(wordLength), dout, din, count, flags)
                && BytesOf(Size(wordLength), sent[|old(sent)|..]) == old(Outgoing(dout, count))
      ensures result != 0 ==> unchanged(this) && (din != null ==> unchanged(din))
      ensures result == 0 && wordLength == 0x380 ==> |sent| == |old(sent)| + count && sent[..|old(sent)|] == old(sent)
      ensures result == 0 && wordLength == 0x380 && dout == null ==>
                forall k :: |old(sent)| <= k < |sent| ==> sent[k] == 0xFF
      ensures result == 0 && wordLength == 0x380 ==>
                var out := old(Outgoing(dout, count));
                forall k :: |old(sent)| <= k < |sent| ==>
                  sent[k] == out[k - |old(sent)|]
      ensures result == 0 && wordLength == 0x380 && din != null ==>
                && (forall j :: 0 <= j < count ==> din[..][j] == Part(peer(sent[..|old(sent)| + j + 1]), 0))
                && (forall j :: count <= j < din.Length ==> din[..][j] == old(din[..])[j])
      ensures result == 0 && wordLength == 0x780 ==>
                |sent| == |old(sent)| + count / 2 && sent[..|old(sent)|] == old(sent)
      ensures result == 0 && wordLength == 0x780 && dout == null ==>
                forall k :: |old(sent)| <= k < |sent| ==> sent[k] == 0xFFFF
      ensures result == 0 && wordLength == 0x780 ==>
                var out := old(Outgoing(dout, count));
                forall k :: |old(sent)| <= k < |sent| ==>
                  sent[k] == HalfIn(out, 2 * (k - |old(sent)|))
      ensures result == 0 && wordLength == 0x780 && din != null ==>
                && (forall j :: 0 <= j < count ==> din[..][j] == Part(peer(sent[..|old(sent)| + j / 2 + 1]), j % 2))
                && (forall j :: count <= j < din.Length ==> din[..][j] == old(din[..])[j])
      ensures result == 0 && wordLength == 0xF80 ==>
                |sent| == |old(sent)| + count / 4 && sent[..|old(sent)|] == old(sent)
      ensures result == 0 && wordLength == 0xF80 && dout == null ==>
                forall k :: |old(sent)| <= k < |sent| ==> sent[k] == 0xFFFF_FFFF
      ensures result == 0 && wordLength == 0xF80 ==>
                var out := old(Outgoing(dout, count));
                forall k :: |old(sent)| <= k < |sent| ==>
                  sent[k] == WordIn(out, 4 * (k - |old(sent)|))
      ensures result == 0 && wordLength == 0xF80 && din != null ==>
                && (forall j :: 0 <= j < count ==> din[..][j] == Part(peer(sent[..|old(sent)| + j / 4 + 1]), j % 4))
                && (forall j :: count <= j < din.Length ==> din[..][j] == old(din[..])[j])
      ensures result == 0 ==>
                && force == ((old(force) || flags.csEnable) && !flags.csDisable) && |selected| == |sent|
                && forall k :: |old(sent)| <= k < |selected| ==> selected[k] == (old(force) || flags.csEnable)
      ensures result == 0 <==>
                || wordLength == 0x380
                || (wordLength == 0x780 && count % 2 == 0)
                || (wordLength == 0xF80 && count % 4 == 0)
    {
      if !(wordLength == WL_8 || wordLength == WL_16 || wordLength == WL_32) {
        return -1;
      }
      ghost var stream := Outgoing(dout, count);
      result := Dispatch(dout, din, count, flags);
      if result == 0 {
        SentBack(Size(wordLength), old(sent), stream, sent);
      }
    }

    /** The choice by word length. */
    method Dispatch(dout: array?<Byte>, din: array?<Byte>, count: nat, flags: Flags) returns (result: int)
      requires Quiet() && (wordLength == WL_8 || wordLength == WL_16 || wordLength == WL_32)
      requires dout != null ==> count <= dout.Length
      requires din != null ==> count <= din.Length
      modifies `sent, `taken, `selected, `wait, `force, din
      ensures Quiet() && result == (if Accepts(wordLength, count) then 0 else -1)
      ensures result == 0 ==> Transferred(Size(wordLength), dout, din, count, flags)
      ensures result != 0 ==> unchanged(this) && (din != null ==> unchanged(din))
      ensures result == 0 && wordLength == 0x380 ==> |sent| == |old(sent)| + count && sent[..|old(sent)|] == old(sent)
      ensures result == 0 && wordLength == 0x380 && dout == null ==>
                forall k :: |old(sent)| <= k < |sent| ==> sent[k] == 0xFF
      ensures result == 0 && wordLength == 0x380 ==>
                var out := old(Outgoing(dout, count));
                forall k :: |old(sent)| <= k < |sent| ==>
                  sent[k] == out[k - |old(sent)|]
      ensures result == 0 && wordLength == 0x380 && din != null ==>
                && (forall j :: 0 <= j < count ==> din[..][j] == Part(peer(sent[..|old(sent)| + j + 1]), 0))
                && (forall j :: count <= j < din.Length ==> din[..][j] == old(din[..])[j])
      ensures result == 0 && wordLength == 0x780 ==>
                |sent| == |old(sent)| + count / 2 && sent[..|old(sent)|] == old(sent)
      ensures result == 0 && wordLength == 0x780 && dout == null ==>
                forall k :: |old(sent)| <= k < |sent| ==> sent[k] == 0xFFFF
      ensures result == 0 && wordLength == 0x780 ==>
                var out := old(Outgoing(dout, count));
                forall k :: |old(sent)| <= k < |sent| ==>
                  sent[k] == HalfIn(out, 2 * (k - |old(sent)|))
      ensures result == 0 && wordLength == 0x780 && din != null ==>
                && (forall j :: 0 <= j < count ==> din[..][j] == Part(peer(sent[..|old(sent)| + j / 2 + 1]), j % 2))
                && (forall j :: count <= j < din.Length ==> din[..][j] == old(din[..])[j])
      ensures result == 0 && wordLength == 0xF80 ==>
                |sent| == |old(sent)| + count / 4 && sent[..|old(sent)|] == old(sent)
      ensures result == 0 && wordLength == 0xF80 && dout == null ==>
                forall k :: |old(sent)| <= k < |sent| ==> sent[k] == 0xFFFF_FFFF
      ensures result == 0 && wordLength == 0xF80 ==>
                var out := old(Outgoing(dout, count));
                forall k :: |old(sent)| <= k < |sent| ==>
                  sent[k] == WordIn(out, 4 * (k - |old(sent)|))
      ensures result == 0 && wordLength == 0xF80 && din != null ==>
                && (forall j :: 0 <= j < count ==> din[..][j] == Part(peer(sent[..|old(sent)| + j / 4 + 1]), j % 4))
                && (forall j :: count <= j < din.Length ==> din[..][j] == old(din[..])[j])
    {
      if wordLength == WL_8 {
        result := SPITransfer8(dout, din, count, flags);
      } else if wordLength == WL_16 {
        result := SPITransfer16(dout, din, count, flags);
      } else {
        result := SPITransfer32(dout, din, count, flags);
      }
    }

    /** The loop of the three transfer functions, for words of n bytes. The two buffers may be the same. */
    method TransferWords(n: nat, dout: array?<Byte>, din: array?<Byte>, count: nat, flags: Flags)
      requires Quiet() && Width(n) && count % n == 0
      requires dout != null ==> count <= dout.Length
      requires din != null ==> count <= din.Length
      modifies `sent, `taken, `selected, `wait, `force, din
      ensures Quiet() && Transferred(n, dout, din, count, flags)
    {
      ghost var stream, before := Outgoing(dout, count), sent;
      ghost var was: seq<Byte> := if din == null then [] else din[..];
      if flags.csEnable { force := true; }
      BytesOfValues(n, stream);
      ghost var got := Rounds(n, dout, din, count / n, stream, was);
      assert force == (old(force) || flags.csEnable);
      if flags.csDisable { force := false; }
      BuffersEnd(dout, din, stream, got, was);
    }

    /** The loop itself. */
    method Rounds(n: nat, dout: array?<Byte>, din: array?<Byte>, words: nat, ghost stream: seq<Byte>,
                  ghost was: seq<Byte>)
      returns (ghost got: seq<Byte>)
      requires Quiet() && Width(n) && |stream| % n == 0 && words == |Values(n, stream)|
      requires Buffers(dout, din, stream, 0, [], was)
      modifies `sent, `taken, `selected, `wait, din
      ensures Quiet() && sent == old(sent) + Values(n, stream)
      ensures got == Replies(peer, old(sent), n, Values(n, stream)) && Buffers(dout, din, stream, |stream|, got, was)
      ensures forall i :: |old(sent)| <= i < |selected| ==> selected[i] == force
    {
      var left, pos: nat := words, 0;
      got := [];
      ghost var before := sent;
      UnderwayStart(n, stream, words);
      while left > 0
        invariant Underway(n, stream, before, pos, got, left) && Buffers(dout, din, stream, pos, got, was)
      {
        got := Round(n, dout, din, left, stream, before, pos, got, was);
        pos, left := pos + n, left - 1;
      }
      UnderwayEnd(n, stream, before, pos, got);
    }

    lemma UnderwayStart(n: nat, stream: seq<Byte>, words: nat)
      requires Quiet() && n > 0 && words == |Values(n, stream)|
      ensures Underway(n, stream, sent, 0, [], words)
    {
      MidwayStart(peer, n, stream, sent);
      assert stream[0..] == stream;
    }

    lemma UnderwayEnd(n: nat, stream: seq<Byte>, before: seq<nat>, pos: nat, got: seq<Byte>)
      requires Width(n) && |stream| % n == 0 && Underway(n, stream, before, pos, got, 0)
      ensures pos == |stream| && sent == before + Values(n, stream)
      ensures got == Replies(peer, before, n, Values(n, stream))
    {
      MidwayEnd(peer, n, stream, before, pos, sent, got);
    }

    /** With `left` words to go, the state of the registers; each word so far went out with chip select as it is now. */
    ghost predicate Underway(n: nat, stream: seq<Byte>, before: seq<nat>, pos: nat, got: seq<Byte>, left: nat)
      requires n > 0
      reads this
    {
      && Quiet() && Midway(peer, n, stream, before, pos, sent, got) && left == |Values(n, stream[pos..])|
      && (|before| <= |sent| && forall i :: |before| <= i < |selected| ==> selected[i] == force)
    }

    /** One round of the loop: a word from the source, its reply to the destination. */
    method Round(n: nat, dout: array?<Byte>, din: array?<Byte>, ghost left: nat, ghost stream: seq<Byte>,
                 ghost before: seq<nat>, pos: nat, ghost got: seq<Byte>, ghost was: seq<Byte>)
      returns (ghost got': seq<Byte>)
      requires n > 0 && left > 0
      requires Underway(n, stream, before, pos, got, left) && Buffers(dout, din, stream, pos, got, was)
      modifies `sent, `taken, `selected, `wait, din
      ensures Underway(n, stream, before, pos + n, got', left - 1)
      ensures Buffers(dout, din, stream, pos + n, got', was)
    {
      var bytes := Load(dout, din, pos, n, stream, got, was);
      var v := Exchange(n, bytes, stream, before, pos, got);
      Store(dout, din, pos, LowBytes(v, n), stream, got, was);
      got' := got + LowBytes(v, n);
    }

    /** One word out, one word in. */
    method Exchange(n: nat, bytes: seq<Byte>, ghost stream: seq<Byte>, ghost before: seq<nat>,
                    ghost pos: nat, ghost got: seq<Byte>)
      returns (v: nat)
      requires Quiet() && n > 0 && pos + n <= |stream| && bytes == stream[pos..pos + n]
      requires Midway(peer, n, stream, before, pos, sent, got)
      modifies `sent, `taken, `selected, `wait
      ensures Quiet() && Midway(peer, n, stream, before, pos + n, sent, got + LowBytes(v, n))
      ensures |Values(n, stream[pos..])| == 1 + |Values(n, stream[pos + n..])|
      ensures selected == old(selected) + [force]
    {
      MidwayStep(peer, n, stream, before, pos, sent, got);
      WriteTx(Value(bytes));
      v := ReadRx();
    }

    /** The word the output pointer points at; without a buffer it stays on a word of ones. */
    method Load(dout: array?<Byte>, din: array?<Byte>, pos: nat, n: nat, ghost stream: seq<Byte>,
                ghost got: seq<Byte>, ghost was: seq<Byte>)
      returns (bytes: seq<Byte>)
      requires pos + n <= |stream| && Buffers(dout, din, stream, pos, got, was)
      ensures bytes == stream[pos..pos + n]
    {
      if dout == null {
        bytes := Ones(n);
      } else {
        bytes := dout[pos..pos + n];
      }
    }

    method Store(dout: array?<Byte>, din: array?<Byte>, pos: nat, bytes: seq<Byte>, ghost stream: seq<Byte>,
                 ghost got: seq<Byte>, ghost was: seq<Byte>)
      requires pos + |bytes| <= |stream| && Buffers(dout, din, stream, pos, got, was)
      modifies din
      ensures Buffers(dout, din, stream, pos + |bytes|, got + bytes, was)
    {
      if din != null {
        forall j | pos <= j < pos + |bytes| {
          din[j] := bytes[j - pos];
        }
      }
    }
  }

  /** A transfer with a byte-serial peer, at any word length: its answers to the bytes sent are stored, no more. */
  method TransferBytes(e: SpiModule, f: seq<Byte> -> Byte, dout: array?<Byte>, din: array<Byte>, count: nat,
                       flags: Flags)
    requires e.Quiet() && e.peer == PeerOf(Size(e.wordLength), f) && Accepts(e.wordLength, count)
    requires count <= din.Length && (dout != null ==> count <= dout.Length)
    modifies e, din
    ensures e.Quiet() && e.wordLength == old(e.wordLength)
    ensures din[..] == Answers(f, BytesOf(Size(e.wordLength), old(e.sent)), old(Outgoing(dout, count)))
                       + old(din[count..])
  {
    WidthInvisible(f, e.sent, Size(e.wordLength), Outgoing(dout, count));
    var _ := e.SPITransfer(dout, din, count, flags);
  }

  /** Two modules of different word lengths, each facing the same byte-serial peer, receive the same bytes. */
  method SameAtAnyWidth(a: SpiModule, b: SpiModule, f: seq<Byte> -> Byte, dout: array?<Byte>, dinA: array<Byte>,
                        dinB: array<Byte>, count: nat, flags: Flags)
    requires a != b && a.Quiet() && b.Quiet() && a.sent == b.sent == []
    requires a.peer == PeerOf(Size(a.wordLength), f) && b.peer == PeerOf(Size(b.wordLength), f)
    requires Accepts(a.wordLength, count) && Accepts(b.wordLength, count)
    requires dinA != dinB && dinA != dout && count == dinA.Length == dinB.Length
    requires dout != null ==> count <= dout.Length
    modifies a, b, dinA, dinB
    ensures dinA[..] == dinB[..] == Answers(f, [], old(Outgoing(dout, count)))
  {
    ghost var answers := Answers(f, [], Outgoing(dout, count));
    TransferBytes(a, f, dout, dinA, count, flags);
    assert dinA[..] == answers;
    TransferBytes(b, f, dout, dinB, count, flags);
    assert dinB[..] == answers;
  }

  function Echo(bytes: seq<Byte>): Byte {
    if bytes == [] then 0 else bytes[|bytes| - 1]
  }

  /** Sending a buffer in place to a peer that echoes every byte leaves the buffer as it was. */
  method EchoInPlace(e: SpiModule, buffer: array<Byte>, flags: Flags)
    requires e.Quiet() && e.peer == PeerOf(Size(e.wordLength), Echo) && Accepts(e.wordLength, buffer.Length)
    modifies e, buffer
    ensures buffer[..] == old(buffer[..])
  {
    ghost var stream, before := Outgoing(buffer, buffer.Length), BytesOf(Size(e.wordLength), e.sent);
    ghost var rest := buffer[buffer.Length..];
    WholeBuffer(buffer[..], buffer.Length, stream, rest);
    EchoAnswers(before, stream);
    TransferBytes(e, Echo, buffer, buffer, buffer.Length, flags);
  }

  lemma WholeBuffer(all: seq<Byte>, n: nat, stream: seq<Byte>, rest: seq<Byte>)
    requires n == |all| && stream == all[..n] && rest == all[n..]
    ensures stream == all && stream + rest == all
  {
  }

  lemma {:induction false} EchoAnswers(before: seq<Byte>, bytes: seq<Byte>)
    ensures Answers(Echo, before, bytes) == bytes
    decreases |bytes|
  {
    if bytes != [] {
      EchoAnswers(before + [bytes[0]], bytes[1..]);
    }
  }
}
