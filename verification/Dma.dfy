/** The DMA golden model with an abstract block cipher: transactions, packets and the
    destination image of a list of descriptors. */
module Dma {
  import opened Bits

  datatype Descriptor = Descriptor(srcBase: int, dstBase: int, lenWords: nat, tag: int)

  /** Where data comes from and how a block of two words is enciphered. */
  datatype Engine = Engine(source: int -> word64, cipher: (word64, word64) -> (word64, word64))

  /** One word moved. */
  datatype Transfer = Transfer(srcIndex: int, dstIndex: int, plaintext: word64, ciphertext: word64)

  datatype Transaction = Transaction(
    descIndex: nat, tag: int, transfer: Transfer, aesBlock: nat, blockWord: nat, outboundPacket: nat, returnPacket: nat)

  const WORDS_PER_AES_BLOCK: nat := 2
  const WORDS_PER_FLIT_PAYLOAD: nat := 4

  // ----- what a descriptor moves -----

  /** Word i of a descriptor; it is enciphered in the block of words 2 * (i / 2) and the next. */
  function WordOf(e: Engine, d: Descriptor, i: nat): Transfer {
    var first := d.srcBase + i - i % 2;
    var (c0, c1) := e.cipher(e.source(first), e.source(first + 1));
    Transfer(d.srcBase + i, d.dstBase + i, e.source(d.srcBase + i), if i % 2 == 0 then c0 else c1)
  }

  /** A descriptor of odd length is skipped. */
  function WordsOf(e: Engine, d: Descriptor): (ts: seq<Transfer>) {
    if d.lenWords % 2 != 0 then [] else seq(d.lenWords, i requires 0 <= i < d.lenWords => WordOf(e, d, i))
  }

  function AllWords(e: Engine, ds: seq<Descriptor>): seq<Transfer> {
    if ds == [] then [] else AllWords(e, ds[..|ds| - 1]) + WordsOf(e, ds[|ds| - 1])
  }

  /** The destination after the words are written in order. */
  function ImageOf(ts: seq<Transfer>): map<int, word64> {
    if ts == [] then map[] else ImageOf(ts[..|ts| - 1])[ts[|ts| - 1].dstIndex := ts[|ts| - 1].ciphertext]
  }

  /** The transaction of global word g, the i-th of descriptor k. */
  function TransactionOf(e: Engine, ds: seq<Descriptor>, k: nat, i: nat, g: nat): Transaction
    requires k < |ds|
  {
    Transaction(k, ds[k].tag, WordOf(e, ds[k], i), g / 2, g % 2, g / 4, g / 4)
  }

  /** The first m transactions of descriptor k, from global word `start`. */
  function Log(e: Engine, ds: seq<Descriptor>, k: nat, start: nat, m: nat): seq<Transaction>
    requires k < |ds|
  {
    seq(m, i requires 0 <= i < m => TransactionOf(e, ds, k, i, start + i))
  }

  function TransactionsUpTo(e: Engine, ds: seq<Descriptor>, n: nat): seq<Transaction>
    requires n <= |ds|
  {
    if n == 0 then []
    else
      var before := TransactionsUpTo(e, ds, n - 1);
      before + Log(e, ds, n - 1, |before|, |WordsOf(e, ds[n - 1])|)
  }

  function Transactions(e: Engine, ds: seq<Descriptor>): seq<Transaction> {
    TransactionsUpTo(e, ds, |ds|)
  }

  // ----- the builder -----

  lemma LogSnoc(e: Engine, ds: seq<Descriptor>, k: nat, start: nat, m: nat)
    requires k < |ds|
    ensures Log(e, ds, k, start, 0) == []
    ensures Log(e, ds, k, start, m + 1) == Log(e, ds, k, start, m) + [TransactionOf(e, ds, k, m, start + m)]
    ensures |Log(e, ds, k, start, m)| == m
  {
    hide TransactionOf;
  }

  lemma ImageSnoc(ts: seq<Transfer>, t: Transfer)
    ensures ImageOf(ts + [t]) == ImageOf(ts)[t.dstIndex := t.ciphertext]
  {
    assert (ts + [t])[..|ts|] == ts;
  }

  /** The two words of the block at an even offset. */
  lemma BlockWords(e: Engine, d: Descriptor, offset: nat)
    requires offset % 2 == 0
    ensures var p0, p1 := e.source(d.srcBase + offset), e.source(d.srcBase + offset + 1);
            var (c0, c1) := e.cipher(p0, p1);
            && WordOf(e, d, offset) == Transfer(d.srcBase + offset, d.dstBase + offset, p0, c0)
            && WordOf(e, d, offset + 1) == Transfer(d.srcBase + offset + 1, d.dstBase + offset + 1, p1, c1)
  {
    assert (offset + 1) % 2 == 1;
    assert d.srcBase + (offset + 1) == d.srcBase + offset + 1;
  }

  /** What has been built after the first m words of descriptor k. */
  ghost predicate Built(e: Engine, ds: seq<Descriptor>, k: nat, m: nat, ts: seq<Transaction>, image: map<int, word64>)
    requires k < |ds|
  {
    var before := TransactionsUpTo(e, ds, k);
    && m <= |WordsOf(e, ds[k])|
    && ts == before + Log(e, ds, k, |before|, m)
    && image == ImageOf(AllWords(e, ds[..k]) + WordsOf(e, ds[k])[..m])
  }

  /** build_dma_golden_from_descriptors */
  method Build(e: Engine, ds: seq<Descriptor>) returns (transactions: seq<Transaction>, image: map<int, word64>)
    ensures transactions == Transactions(e, ds)
    ensures image == ImageOf(AllWords(e, ds))
  {
    hide Built, ImageOf, AllWords, TransactionsUpTo, WordOf, WordsOf;
    transactions, image := [], map[];
    var aesBlock, outboundWord, returnWord := 0, 0, 0;
    StartBuilt(e, ds);
    for k := 0 to |ds|
      invariant transactions == TransactionsUpTo(e, ds, k)
      invariant image == ImageOf(AllWords(e, ds[..k]))
      invariant outboundWord == returnWord == |transactions| == 2 * aesBlock
    {
      var d := ds[k];
      NothingBuilt(e, ds, k);
      if d.lenWords % 2 == 0 {
        var offset := 0;
        while offset < d.lenWords
          invariant 0 <= offset <= d.lenWords && offset % 2 == 0
          invariant Built(e, ds, k, offset, transactions, image)
          invariant outboundWord == returnWord == |transactions| == 2 * aesBlock
        {
          BlockWords(e, d, offset);
          var p0, p1 := e.source(d.srcBase + offset), e.source(d.srcBase + offset + 1);
          var (c0, c1) := e.cipher(p0, p1);
          BuildOne(e, ds, k, offset, transactions, image);
          image := image[d.dstBase + offset := c0];
          var first := Transfer(d.srcBase + offset, d.dstBase + offset, p0, c0);
          transactions := transactions + [Transaction(k, d.tag, first, aesBlock, 0,
            outboundWord / WORDS_PER_FLIT_PAYLOAD, returnWord / WORDS_PER_FLIT_PAYLOAD)];
          outboundWord, returnWord := outboundWord + 1, returnWord + 1;
          BuildOne(e, ds, k, offset + 1, transactions, image);
          image := image[d.dstBase + offset + 1 := c1];
          var second := Transfer(d.srcBase + offset + 1, d.dstBase + offset + 1, p1, c1);
          transactions := transactions + [Transaction(k, d.tag, second, aesBlock, 1,
            outboundWord / WORDS_PER_FLIT_PAYLOAD, returnWord / WORDS_PER_FLIT_PAYLOAD)];
          outboundWord, returnWord := outboundWord + 1, returnWord + 1;
          aesBlock := aesBlock + 1;
          offset := offset + 2;
        }
      }
      AllBuilt(e, ds, k, transactions, image);
    }
    assert ds[..|ds|] == ds;
  }

  lemma StartBuilt(e: Engine, ds: seq<Descriptor>)
    ensures TransactionsUpTo(e, ds, 0) == [] && ImageOf(AllWords(e, ds[..0])) == map[]
  {
  }

  lemma NothingBuilt(e: Engine, ds: seq<Descriptor>, k: nat)
    requires k < |ds|
    ensures Built(e, ds, k, 0, TransactionsUpTo(e, ds, k), ImageOf(AllWords(e, ds[..k])))
  {
    hide WordsOf, WordOf, ImageOf, AllWords, TransactionsUpTo;
    var words := AllWords(e, ds[..k]);
    assert words + WordsOf(e, ds[k])[..0] == words;
    LogSnoc(e, ds, k, |TransactionsUpTo(e, ds, k)|, 0);
  }

  lemma BuildOne(e: Engine, ds: seq<Descriptor>, k: nat, m: nat, ts: seq<Transaction>, image: map<int, word64>)
    requires k < |ds| && ds[k].lenWords % 2 == 0 && m < ds[k].lenWords
    requires Built(e, ds, k, m, ts, image)
    ensures var t := WordOf(e, ds[k], m);
            && t.dstIndex == ds[k].dstBase + m
            && Built(e, ds, k, m + 1, ts + [Transaction(k, ds[k].tag, t, |ts| / 2, |ts| % 2, |ts| / 4, |ts| / 4)],
                     image[t.dstIndex := t.ciphertext])
  {
    hide ImageOf, AllWords, TransactionsUpTo, Log;
    var before, words := TransactionsUpTo(e, ds, k), AllWords(e, ds[..k]);
    var ws, t := WordsOf(e, ds[k]), WordOf(e, ds[k], m);
    LogSnoc(e, ds, k, |before|, m);
    assert words + ws[..m + 1] == (words + ws[..m]) + [t];
    ImageSnoc(words + ws[..m], t);
  }

  lemma AllBuilt(e: Engine, ds: seq<Descriptor>, k: nat, ts: seq<Transaction>, image: map<int, word64>)
    requires k < |ds|
    requires Built(e, ds, k, if ds[k].lenWords % 2 == 0 then ds[k].lenWords else 0, ts, image)
    ensures ts == TransactionsUpTo(e, ds, k + 1) && image == ImageOf(AllWords(e, ds[..k + 1]))
  {
    hide ImageOf, Log, WordOf;
    assert ds[..k + 1][..k] == ds[..k];
    var ws := WordsOf(e, ds[k]);
    assert ws[..|ws|] == ws;
  }

  // ----- counts and positions -----

  function TotalWords(ds: seq<Descriptor>): nat {
    if ds == [] then 0
    else TotalWords(ds[..|ds| - 1]) + (if ds[|ds| - 1].lenWords % 2 == 0 then ds[|ds| - 1].lenWords else 0)
  }

  /** Transactions and words correspond one to one, and blocks and packets follow the global index. */
  lemma {:induction false} TransactionsFollowWords(e: Engine, ds: seq<Descriptor>, n: nat)
    requires n <= |ds|
    ensures var ts := TransactionsUpTo(e, ds, n);
            && |ts| == |AllWords(e, ds[..n])| == TotalWords(ds[..n])
            && |ts| % 2 == 0
            && forall g :: 0 <= g < |ts| ==>
                 && ts[g].transfer == AllWords(e, ds[..n])[g]
                 && ts[g].aesBlock == g / 2 && ts[g].blockWord == g % 2
                 && ts[g].outboundPacket == ts[g].returnPacket == g / 4
    decreases n
  {
    hide WordsOf, Log, TotalWords, AllWords;
    hide WordOf;
    if n > 0 {
      TransactionsFollowWords(e, ds, n - 1);
      LastDescriptor(e, ds, n);
      var before, d := TransactionsUpTo(e, ds, n - 1), ds[n - 1];
      LogFollows(e, ds, n - 1, |before|);
    } else {
      NoDescriptors(e, ds);
    }
  }

  /** Every field of a transaction: word i of descriptor k, an even-length one, is enciphered
      with the other word of its pair. */
  lemma TransactionFields(e: Engine, ds: seq<Descriptor>, k: nat, i: nat)
    requires k < |ds| && ds[k].lenWords % 2 == 0 && i < ds[k].lenWords
    ensures var ts, d := Transactions(e, ds), ds[k];
            var g := TotalWords(ds[..k]) + i;
            var pair := e.cipher(e.source(d.srcBase + i / 2 * 2), e.source(d.srcBase + i / 2 * 2 + 1));
            && g < |ts|
            && ts[g].descIndex == k && ts[g].tag == d.tag
            && ts[g].transfer.srcIndex == d.srcBase + i && ts[g].transfer.dstIndex == d.dstBase + i
            && ts[g].transfer.plaintext == e.source(d.srcBase + i)
            && ts[g].transfer.ciphertext == (if i % 2 == 0 then pair.0 else pair.1)
  {
    hide TotalWords, AllWords, TransactionsUpTo, WordsOf, Log;
    TransactionsFollowWords(e, ds, k);
    UpToSnoc(e, ds, k);
    WordsOfAt(e, ds[k]);
    LogAt(e, ds, k, TotalWords(ds[..k]), |WordsOf(e, ds[k])|);
    PrefixOfTransactions(e, ds, k + 1);
  }

  lemma UpToSnoc(e: Engine, ds: seq<Descriptor>, k: nat)
    requires k < |ds|
    ensures var before := TransactionsUpTo(e, ds, k);
            TransactionsUpTo(e, ds, k + 1) == before + Log(e, ds, k, |before|, |WordsOf(e, ds[k])|)
  {
    hide Log, WordsOf;
  }

  lemma {:induction false} PrefixOfTransactions(e: Engine, ds: seq<Descriptor>, n: nat)
    requires n <= |ds|
    ensures TransactionsUpTo(e, ds, n) <= Transactions(e, ds)
    decreases |ds| - n
  {
    hide Log, WordsOf, TransactionsUpTo;
    if n < |ds| {
      UpToSnoc(e, ds, n);
      PrefixOfTransactions(e, ds, n + 1);
    }
  }

  /** The image holds, at each destination, the last word written there. */
  lemma {:induction false} ImageIsLastWrite(ts: seq<Transfer>, a: int)
    ensures a in ImageOf(ts) <==> exists i :: 0 <= i < |ts| && ts[i].dstIndex == a
    ensures a in ImageOf(ts) ==>
      exists i :: 0 <= i < |ts| && ts[i].dstIndex == a && ImageOf(ts)[a] == ts[i].ciphertext
                  && forall j :: i < j < |ts| ==> ts[j].dstIndex != a
    decreases |ts|
  {
    if ts != [] {
      var n := |ts| - 1;
      ImageIsLastWrite(ts[..n], a);
      if ts[n].dstIndex != a && a in ImageOf(ts[..n]) {
        var i :| 0 <= i < n && ts[..n][i].dstIndex == a && ImageOf(ts[..n])[a] == ts[..n][i].ciphertext
                 && forall j :: i < j < n ==> ts[..n][j].dstIndex != a;
        assert ts[i] == ts[..n][i];
        forall j | i < j < |ts| ensures ts[j].dstIndex != a {
          if j < n {
            assert ts[j] == ts[..n][j];
          }
        }
      } else if ts[n].dstIndex != a {
        forall i | 0 <= i < |ts| ensures ts[i].dstIndex != a {
          if i < n {
            assert ts[i] == ts[..n][i];
          }
        }
      }
    }
  }

  lemma NoDescriptors(e: Engine, ds: seq<Descriptor>)
    ensures AllWords(e, ds[..0]) == [] && TotalWords(ds[..0]) == 0
  {
  }

  lemma LastDescriptor(e: Engine, ds: seq<Descriptor>, n: nat)
    requires 0 < n <= |ds|
    ensures AllWords(e, ds[..n]) == AllWords(e, ds[..n - 1]) + WordsOf(e, ds[n - 1])
    ensures TotalWords(ds[..n]) == TotalWords(ds[..n - 1]) + |WordsOf(e, ds[n - 1])|
  {
    hide WordOf;
    assert ds[..n][..n - 1] == ds[..n - 1];
  }

  lemma LogFollows(e: Engine, ds: seq<Descriptor>, k: nat, start: nat)
    requires k < |ds|
    ensures var ws := WordsOf(e, ds[k]);
            var ts := Log(e, ds, k, start, |ws|);
            |ts| == |ws| && |ws| % 2 == 0 && forall i :: 0 <= i < |ts| ==>
              && ts[i].transfer == ws[i]
              && ts[i].aesBlock == (start + i) / 2 && ts[i].blockWord == (start + i) % 2
              && ts[i].outboundPacket == ts[i].returnPacket == (start + i) / 4
  {
    hide WordOf, WordsOf, Log;
    WordsOfAt(e, ds[k]);
    LogAt(e, ds, k, start, |WordsOf(e, ds[k])|);
  }

  lemma WordsOfAt(e: Engine, d: Descriptor)
    ensures |WordsOf(e, d)| == if d.lenWords % 2 == 0 then d.lenWords else 0
    ensures forall i :: 0 <= i < |WordsOf(e, d)| ==> WordsOf(e, d)[i] == WordOf(e, d, i)
  {
    hide WordOf;
  }

  lemma LogAt(e: Engine, ds: seq<Descriptor>, k: nat, start: nat, m: nat)
    requires k < |ds|
    ensures |Log(e, ds, k, start, m)| == m
    ensures forall i :: 0 <= i < m ==> Log(e, ds, k, start, m)[i] == TransactionOf(e, ds, k, i, start + i)
  {
    hide TransactionOf;
  }

  // ----- images -----

  lemma {:induction false} ImageConcat(ts: seq<Transfer>, us: seq<Transfer>)
    ensures ImageOf(ts + us) == ImageOf(ts) + ImageOf(us)
    decreases |us|
  {
    if us == [] {
      assert ts + us == ts;
    } else {
      var n := |us| - 1;
      assert (ts + us)[..|ts| + n] == ts + us[..n];
      ImageConcat(ts, us[..n]);
    }
  }

  lemma {:induction false} AllWordsConcat(e: Engine, ds: seq<Descriptor>, es: seq<Descriptor>)
    ensures AllWords(e, ds + es) == AllWords(e, ds) + AllWords(e, es)
    decreases |es|
  {
    hide WordsOf;
    if es == [] {
      assert ds + es == ds;
    } else {
      var n := |es| - 1;
      assert (ds + es)[..|ds| + n] == ds + es[..n];
      AllWordsConcat(e, ds, es[..n]);
      var a, b, c := AllWords(e, ds), AllWords(e, es[..n]), WordsOf(e, es[n]);
      assert a + (b + c) == (a + b) + c;
    }
  }

  /** The image of a concatenation is the second image laid over the first. */
  lemma ImageOverlay(e: Engine, ds: seq<Descriptor>, es: seq<Descriptor>)
    ensures ImageOf(AllWords(e, ds + es)) == ImageOf(AllWords(e, ds)) + ImageOf(AllWords(e, es))
  {
    AllWordsConcat(e, ds, es);
    ImageConcat(AllWords(e, ds), AllWords(e, es));
  }

  /** Destination ranges do not meet. */
  predicate DisjointTargets(ds: seq<Descriptor>, es: seq<Descriptor>) {
    forall i, j :: 0 <= i < |ds| && 0 <= j < |es| ==>
      ds[i].dstBase + ds[i].lenWords <= es[j].dstBase || es[j].dstBase + es[j].lenWords <= ds[i].dstBase
  }

  /** An address of the image lies in the destination range of some descriptor. */
  lemma {:induction false} ImageKeys(e: Engine, ds: seq<Descriptor>, a: int)
    requires a in ImageOf(AllWords(e, ds))
    ensures exists i :: 0 <= i < |ds| && ds[i].dstBase <= a < ds[i].dstBase + ds[i].lenWords
    decreases |ds|
  {
    if ds != [] {
      var n := |ds| - 1;
      ImageConcat(AllWords(e, ds[..n]), WordsOf(e, ds[n]));
      hide ImageOf, AllWords, WordsOf, WordOf;
      if a in ImageOf(WordsOf(e, ds[n])) {
        KeyInRange(e, ds[n], a);
      } else {
        ImageKeys(e, ds[..n], a);
        var i :| 0 <= i < n && ds[..n][i].dstBase <= a < ds[..n][i].dstBase + ds[..n][i].lenWords;
        assert ds[..n][i] == ds[i];
      }
    }
  }

  lemma KeyInRange(e: Engine, d: Descriptor, a: int)
    requires a in ImageOf(WordsOf(e, d))
    ensures d.dstBase <= a < d.dstBase + d.lenWords
  {
    hide ImageOf, WordsOf;
    KeyIsTarget(WordsOf(e, d), a);
    WordsOfAt(e, d);
  }

  lemma {:induction false} KeyIsTarget(ts: seq<Transfer>, a: int)
    requires a in ImageOf(ts)
    ensures exists i :: 0 <= i < |ts| && ts[i].dstIndex == a
    decreases |ts|
  {
    var n := |ts| - 1;
    if ts[n].dstIndex != a {
      KeyIsTarget(ts[..n], a);
      var i :| 0 <= i < n && ts[..n][i].dstIndex == a;
      assert ts[i].dstIndex == a;
    }
  }

  /** Descriptor lists with disjoint destinations commute. */
  lemma DisjointCommute(e: Engine, ds: seq<Descriptor>, es: seq<Descriptor>)
    requires DisjointTargets(ds, es)
    ensures ImageOf(AllWords(e, ds + es)) == ImageOf(AllWords(e, es + ds))
  {
    hide ImageOf, AllWords;
    ImageOverlay(e, ds, es);
    ImageOverlay(e, es, ds);
    var f, g := ImageOf(AllWords(e, ds)), ImageOf(AllWords(e, es));
    forall a | a in f ensures a !in g {
      if a in g {
        NoSharedTarget(e, ds, es, a);
      }
    }
    assert f + g == g + f;
  }

  lemma NoSharedTarget(e: Engine, ds: seq<Descriptor>, es: seq<Descriptor>, a: int)
    requires DisjointTargets(ds, es)
    ensures a !in ImageOf(AllWords(e, ds)) || a !in ImageOf(AllWords(e, es))
  {
    hide ImageOf, AllWords;
    if a in ImageOf(AllWords(e, ds)) && a in ImageOf(AllWords(e, es)) {
      ImageKeys(e, ds, a);
      ImageKeys(e, es, a);
    }
  }

  // ----- splitting -----

  /** Contiguous even-length descriptors that together cover the transfer d. */
  ghost predicate Splits(ds: seq<Descriptor>, d: Descriptor) {
    && d.lenWords == TotalWords(ds)
    && forall k :: 0 <= k < |ds| ==>
         && ds[k].lenWords % 2 == 0
         && ds[k].srcBase == d.srcBase + TotalWords(ds[..k])
         && ds[k].dstBase == d.dstBase + TotalWords(ds[..k])
  }

  lemma {:induction false} EvenTotal(ds: seq<Descriptor>)
    ensures TotalWords(ds) % 2 == 0
  {
    if ds != [] {
      EvenTotal(ds[..|ds| - 1]);
    }
  }

  /** All but the last part of a split is a split of the shorter transfer. */
  lemma SplitsFront(ds: seq<Descriptor>, d: Descriptor)
    requires Splits(ds, d) && ds != []
    ensures var n := |ds| - 1;
            var m := TotalWords(ds[..n]);
            && Splits(ds[..n], d.(lenWords := m))
            && m % 2 == 0 && d.lenWords == m + ds[n].lenWords && ds[n].lenWords % 2 == 0
            && ds[n].srcBase == d.srcBase + m && ds[n].dstBase == d.dstBase + m
  {
    var n := |ds| - 1;
    EvenTotal(ds[..n]);
    assert d.lenWords == TotalWords(ds[..n]) + ds[n].lenWords;
    hide TotalWords;
    forall k | 0 <= k < n ensures ds[..n][..k] == ds[..k] {}
  }

  /** A split transfer moves the same words in the same order as the whole. */
  lemma {:induction false} SplitWords(e: Engine, ds: seq<Descriptor>, d: Descriptor)
    requires Splits(ds, d)
    ensures AllWords(e, ds) == WordsOf(e, d)
    decreases |ds|
  {
    hide WordOf, WordsOf;
    WordsOfAt(e, d);
    if ds != [] {
      SplitsFront(ds, d);
      hide Splits, TotalWords;
      var n := |ds| - 1;
      var m := TotalWords(ds[..n]);
      var front := d.(lenWords := m);
      SplitWords(e, ds[..n], front);
      Concatenated(e, front, ds[n], d);
    }
  }

  /** Two transfers end to end move the words of the whole. */
  lemma Concatenated(e: Engine, front: Descriptor, back: Descriptor, d: Descriptor)
    requires front.lenWords % 2 == 0 && back.lenWords % 2 == 0 && d.lenWords == front.lenWords + back.lenWords
    requires front.srcBase == d.srcBase && front.dstBase == d.dstBase
    requires back.srcBase == d.srcBase + front.lenWords && back.dstBase == d.dstBase + front.lenWords
    ensures WordsOf(e, d) == WordsOf(e, front) + WordsOf(e, back)
  {
    hide WordOf, WordsOf;
    WordsOfAt(e, front);
    WordsOfAt(e, back);
    WordsOfAt(e, d);
    forall i | 0 <= i < d.lenWords ensures WordsOf(e, d)[i] == (WordsOf(e, front) + WordsOf(e, back))[i] {
      if i < front.lenWords {
        SameBases(e, front, d, i);
      } else {
        ShiftedWord(e, back, d, front.lenWords, i - front.lenWords);
      }
    }
  }

  lemma SameBases(e: Engine, c: Descriptor, d: Descriptor, i: nat)
    requires c.srcBase == d.srcBase && c.dstBase == d.dstBase
    ensures WordOf(e, c, i) == WordOf(e, d, i)
  {
  }

  /** Moving the bases by an even number of words keeps the block pairing. */
  lemma ShiftedWord(e: Engine, c: Descriptor, d: Descriptor, m: nat, i: nat)
    requires m % 2 == 0 && c.srcBase == d.srcBase + m && c.dstBase == d.dstBase + m
    ensures WordOf(e, c, i) == WordOf(e, d, m + i)
  {
    assert (m + i) % 2 == i % 2;
    assert d.srcBase + (m + i) == c.srcBase + i;
  }

  /** Splitting a transfer changes neither the image nor any word's block and packet. */
  lemma SplitEquivalent(e: Engine, ds: seq<Descriptor>, d: Descriptor)
    requires Splits(ds, d)
    ensures ImageOf(AllWords(e, ds)) == ImageOf(AllWords(e, [d]))
    ensures var ts, us := Transactions(e, ds), Transactions(e, [d]);
            |ts| == |us| && forall g :: 0 <= g < |ts| ==>
              && ts[g].transfer == us[g].transfer
              && ts[g].aesBlock == us[g].aesBlock && ts[g].blockWord == us[g].blockWord
              && ts[g].outboundPacket == us[g].outboundPacket && ts[g].returnPacket == us[g].returnPacket
  {
    SplitWords(e, ds, d);
    SingleWords(e, d);
    hide Splits, ImageOf, AllWords, TransactionsUpTo, TotalWords, WordsOf;
    TransactionsFollowWords(e, ds, |ds|);
    TransactionsFollowWords(e, [d], 1);
    assert [d][..1] == [d] && ds[..|ds|] == ds;
  }

  lemma SingleWords(e: Engine, d: Descriptor)
    ensures AllWords(e, [d]) == WordsOf(e, d)
  {
    hide WordsOf;
    assert [d][..0] == [];
    assert AllWords(e, [d]) == [] + WordsOf(e, d);
  }

  /** The queue-pressure plan: `count` equal descriptors laid end to end. */
  function QueuePlan(srcBase: int, dstBase: int, lenWords: nat, count: nat): seq<Descriptor> {
    seq(count, i requires 0 <= i < count =>
      Descriptor(srcBase + i * lenWords, dstBase + i * lenWords, lenWords, 0x5100 + i))
  }

  lemma {:induction false} QueueTotal(srcBase: int, dstBase: int, lenWords: nat, count: nat)
    requires lenWords % 2 == 0
    ensures TotalWords(QueuePlan(srcBase, dstBase, lenWords, count)) == count * lenWords >= 0
    decreases count
  {
    if count > 0 {
      var ds := QueuePlan(srcBase, dstBase, lenWords, count);
      assert ds[..count - 1] == QueuePlan(srcBase, dstBase, lenWords, count - 1);
      QueueTotal(srcBase, dstBase, lenWords, count - 1);
      assert count * lenWords == (count - 1) * lenWords + lenWords;
    }
  }

  /** Transaction g of the plan carries the tag of its descriptor, counted from 0x5100. */
  lemma QueueTags(e: Engine, srcBase: int, dstBase: int, lenWords: nat, count: nat, k: nat, i: nat)
    requires lenWords % 2 == 0 && k < count && i < lenWords
    ensures var ts, g := Transactions(e, QueuePlan(srcBase, dstBase, lenWords, count)), k * lenWords + i;
            0 <= g < |ts| && ts[g].descIndex == k && ts[g].tag == 0x5100 + k
  {
    hide TotalWords, Transactions;
    var ds := QueuePlan(srcBase, dstBase, lenWords, count);
    assert ds[..k] == QueuePlan(srcBase, dstBase, lenWords, k);
    QueueTotal(srcBase, dstBase, lenWords, k);
    TransactionFields(e, ds, k, i);
  }

  /** The plan moves what one transfer of the whole length moves. */
  lemma QueuePlanIsOneTransfer(e: Engine, srcBase: int, dstBase: int, lenWords: nat, count: nat, tag: int)
    requires lenWords % 2 == 0
    ensures count * lenWords >= 0
    ensures ImageOf(AllWords(e, QueuePlan(srcBase, dstBase, lenWords, count)))
         == ImageOf(AllWords(e, [Descriptor(srcBase, dstBase, count * lenWords, tag)]))
  {
    var ds := QueuePlan(srcBase, dstBase, lenWords, count);
    QueueTotal(srcBase, dstBase, lenWords, count);
    var d := Descriptor(srcBase, dstBase, count * lenWords, tag);
    forall k | 0 <= k < |ds| ensures TotalWords(ds[..k]) == k * lenWords {
      assert ds[..k] == QueuePlan(srcBase, dstBase, lenWords, k);
      QueueTotal(srcBase, dstBase, lenWords, k);
    }
    SplitEquivalent(e, ds, d);
  }
}
