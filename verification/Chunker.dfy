/** Splitting page texts into overlapping chunks of words. */
module Chunker {
  datatype Chunk = Chunk(text: string, index: int, page: int)

  // ---------- Words ----------

  /** unicode.IsSpace */
  predicate IsSpace(c: char) {
    var n := c as int;
    || 0x09 <= n <= 0x0D || n == 0x20 || n == 0x85 || n == 0xA0 || n == 0x1680
    || 0x2000 <= n <= 0x200A || n == 0x2028 || n == 0x2029 || n == 0x202F || n == 0x205F || n == 0x3000
  }

  ghost predicate IsWord(w: string) {
    w != "" && forall k :: 0 <= k < |w| ==> !IsSpace(w[k])
  }

  ghost predicate AllWords(ws: seq<string>) {
    forall k :: 0 <= k < |ws| ==> IsWord(ws[k])
  }

  /** strings.Fields on the rest of a text, with the word read so far. */
  function FieldsFrom(word: string, t: string): seq<string>
    decreases |t|
  {
    var done := if word == "" then [] else [word];
    if t == "" then done
    else if IsSpace(t[0]) then done + FieldsFrom("", t[1..])
    else FieldsFrom(word + [t[0]], t[1..])
  }

  function Fields(t: string): seq<string> {
    FieldsFrom("", t)
  }

  /** strings.Join with a single space */
  function Join(ws: seq<string>): string {
    if ws == [] then "" else if |ws| == 1 then ws[0] else ws[0] + " " + Join(ws[1..])
  }

  lemma {:induction false} FieldsAreWords(word: string, t: string)
    requires forall k :: 0 <= k < |word| ==> !IsSpace(word[k])
    ensures AllWords(FieldsFrom(word, t))
    decreases |t|
  {
    if t != "" {
      if IsSpace(t[0]) {
        FieldsAreWords("", t[1..]);
      } else {
        FieldsAreWords(word + [t[0]], t[1..]);
      }
    }
  }

  /** Reading a word's characters appends them to the word read so far. */
  lemma {:induction false} ReadWord(word: string, w: string, rest: string)
    requires forall k :: 0 <= k < |w| ==> !IsSpace(w[k])
    ensures FieldsFrom(word, w + rest) == FieldsFrom(word + w, rest)
    decreases |w|
  {
    if w == "" {
      assert w + rest == rest && word + w == word;
    } else {
      assert (w + rest)[1..] == w[1..] + rest;
      ReadWord(word + [w[0]], w[1..], rest);
      assert word + [w[0]] + w[1..] == word + w;
    }
  }

  /** Splitting what was joined gives the words back. */
  lemma {:induction false} FieldsOfJoin(ws: seq<string>)
    requires AllWords(ws)
    ensures Fields(Join(ws)) == ws
  {
    if ws != [] {
      assert IsWord(ws[0]);
      if |ws| == 1 {
        ReadWord("", ws[0], "");
        assert ws[0] + "" == ws[0] && "" + ws[0] == ws[0];
      } else {
        var rest := " " + Join(ws[1..]);
        assert Join(ws) == ws[0] + rest;
        ReadWord("", ws[0], rest);
        assert "" + ws[0] == ws[0] && rest[1..] == Join(ws[1..]);
        FieldsOfJoin(ws[1..]);
      }
    }
  }

  /** The white space of Unicode, by code point. */
  lemma WhiteSpace(c: char)
    ensures IsSpace(c) <==>
              c as int in {9, 10, 11, 12, 13, 32, 133, 160, 5760, 8192, 8193, 8194, 8195, 8196, 8197, 8198, 8199, 8200,
                           8201, 8202, 8232, 8233, 8239, 8287, 12288}
  {
  }

  ghost predicate AllSpace(t: string) {
    forall k :: 0 <= k < |t| ==> IsSpace(t[k])
  }

  /** Words with gaps before, between and after them. */
  function Spaced(ws: seq<string>, gaps: seq<string>): string
    requires |gaps| == |ws| + 1
  {
    if ws == [] then gaps[0] else gaps[0] + (ws[0] + Spaced(ws[1..], gaps[1..]))
  }

  ghost predicate Separates(ws: seq<string>, gaps: seq<string>) {
    && |gaps| == |ws| + 1 && (forall k :: 0 <= k < |gaps| ==> AllSpace(gaps[k]))
    && forall k :: 0 < k < |ws| ==> gaps[k] != ""
  }

  lemma {:induction false} SkipGap(gap: string, rest: string)
    requires AllSpace(gap)
    ensures FieldsFrom("", gap + rest) == FieldsFrom("", rest)
    decreases |gap|
  {
    if gap == "" {
      assert gap + rest == rest;
    } else {
      assert (gap + rest)[1..] == gap[1..] + rest;
      SkipGap(gap[1..], rest);
    }
  }

  /** However its words are separated by white space, a text splits into just those words. */
  lemma {:induction false} FieldsOfSpaced(ws: seq<string>, gaps: seq<string>)
    requires AllWords(ws) && Separates(ws, gaps)
    ensures Fields(Spaced(ws, gaps)) == ws
    decreases |ws|
  {
    if ws == [] {
      assert gaps[0] + "" == gaps[0];
      SkipGap(gaps[0], "");
    } else {
      var rest := Spaced(ws[1..], gaps[1..]);
      assert IsWord(ws[0]);
      assert Separates(ws[1..], gaps[1..]) by {
        forall k | 0 < k < |ws[1..]| ensures gaps[1..][k] != "" {
          assert gaps[k + 1] != "";
        }
      }
      FieldsOfSpaced(ws[1..], gaps[1..]);
      SkipGap(gaps[0], ws[0] + rest);
      ReadWord("", ws[0], rest);
      assert "" + ws[0] == ws[0];
      WordEnds(ws[0], rest, ws[1..], gaps[1..]);
    }
  }

  /** A word before a text that is empty or starts with a space is complete. */
  lemma WordEnds(w: string, rest: string, ws: seq<string>, gaps: seq<string>)
    requires IsWord(w) && Separates(ws, gaps) && rest == Spaced(ws, gaps) && (ws != [] ==> gaps[0] != "")
    ensures FieldsFrom(w, rest) == [w] + FieldsFrom("", rest)
  {
    if rest != "" {
      assert AllSpace(gaps[0]);
      assert rest[0] == gaps[0][0];
    }
  }

  // ---------- Windows ----------

  function Advance(maxWords: int, overlapWords: int): int {
    if maxWords - overlapWords <= 0 then 1 else maxWords - overlapWords
  }

  function Min(a: int, b: int): int {
    if a < b then a else b
  }

  /** The word ranges of one page, from position i on. */
  function Windows(words: seq<string>, maxWords: nat, overlapWords: int, i: nat): seq<seq<string>>
    decreases |words| - i
  {
    if i >= |words| then []
    else
      var end := Min(i + maxWords, |words|);
      [words[i..end]] +
      if end == |words| then [] else Windows(words, maxWords, overlapWords, i + Advance(maxWords, overlapWords))
  }

  lemma Unfold(words: seq<string>, maxWords: nat, overlapWords: int, i: nat)
    ensures i >= |words| ==> Windows(words, maxWords, overlapWords, i) == []
    ensures i < |words| ==> var w := Windows(words, maxWords, overlapWords, i); var end := Min(i + maxWords, |words|);
              && |w| > 0 && w[0] == words[i..end]
              && w[1..] == if end == |words| then []
                   else Windows(words, maxWords, overlapWords, i + Advance(maxWords, overlapWords))
  {
  }

  /** Words shared by neighbouring chunks. */
  function Shared(maxWords: int, overlapWords: int): nat {
    var o := Min(overlapWords, maxWords - 1);
    if o < 0 then 0 else o
  }

  /** Where window k starts. */
  function StartOf(k: nat, step: nat): nat {
    if k == 0 then 0 else step + StartOf(k - 1, step)
  }

  lemma {:induction false} StartIsProduct(k: nat, step: nat)
    ensures StartOf(k, step) == k * step
  {
    if k > 0 {
      StartIsProduct(k - 1, step);
      assert k * step == step + (k - 1) * step;
    }
  }

  /** Window k starts k advances after the first, is full unless it is the last, and the last one reaches the end. */
  lemma {:induction false} WindowAt(words: seq<string>, maxWords: nat, overlapWords: int, i: nat, k: nat)
    requires maxWords >= 1 && k < |Windows(words, maxWords, overlapWords, i)|
    ensures var at := i + StartOf(k, Advance(maxWords, overlapWords));
            var w := Windows(words, maxWords, overlapWords, i);
            && 0 <= at < |words| && w[k] == words[at..Min(at + maxWords, |words|)]
            && 1 <= |w[k]| <= maxWords
            && (k + 1 < |w| ==> at + maxWords < |words| && at + Advance(maxWords, overlapWords) < |words|)
    decreases k
  {
    hide Windows;
    var step := Advance(maxWords, overlapWords);
    Unfold(words, maxWords, overlapWords, i);
    Unfold(words, maxWords, overlapWords, i + step);
    if k > 0 {
      WindowAt(words, maxWords, overlapWords, i + step, k - 1);
    }
  }

  /** Neighbours share exactly the last words of one and the first of the next. */
  lemma NeighboursShare(words: seq<string>, maxWords: nat, overlapWords: int, k: nat)
    requires maxWords >= 1 && overlapWords >= 0 && k + 1 < |Windows(words, maxWords, overlapWords, 0)|
    ensures var w := Windows(words, maxWords, overlapWords, 0); var o := Shared(maxWords, overlapWords);
            && o == Min(overlapWords, maxWords - 1) && |w[k]| == maxWords && |w[k + 1]| > o
            && w[k][maxWords - o..] == w[k + 1][..o]
            && maxWords - o == Advance(maxWords, overlapWords)
  {
    hide Windows, StartOf;
    var step, o := Advance(maxWords, overlapWords), Shared(maxWords, overlapWords);
    WindowAt(words, maxWords, overlapWords, 0, k);
    WindowAt(words, maxWords, overlapWords, 0, k + 1);
    var at := StartOf(k, step);
    NextStart(k, step);
    var c := Min(at + maxWords, |words|);
    assert c == at + maxWords;
    Overlap(words, at, at + step, c, Min(at + step + maxWords, |words|), o);
  }

  lemma NextStart(k: nat, step: nat)
    ensures StartOf(k + 1, step) == StartOf(k, step) + step
  {
  }

  /** Two ranges of a list agree where they overlap. */
  lemma Overlap(words: seq<string>, a: nat, b: nat, c: nat, d: nat, o: nat)
    requires a <= b <= c <= d <= |words| && c == b + o
    ensures words[a..c][c - a - o..] == words[b..d][..o]
  {
  }

  /** The windows one after the other, with the first o words dropped from each. */
  function Tails(ws: seq<seq<string>>, o: nat): seq<string> {
    if ws == [] then []
    else (if o <= |ws[0]| then ws[0][o..] else []) + Tails(ws[1..], o)
  }

  /** The first window, then the others without the words they repeat. */
  function Rebuild(ws: seq<seq<string>>, o: nat): seq<string> {
    if ws == [] then [] else ws[0] + Tails(ws[1..], o)
  }

  lemma SplitAt(words: seq<string>, a: nat, b: nat, o: nat)
    requires a + o <= b <= |words|
    ensures words[a..b][o..] + words[b..] == words[a + o..]
  {
  }

  lemma {:induction false} TailsRebuild(words: seq<string>, maxWords: nat, overlapWords: int, i: nat)
    requires maxWords >= 1 && overlapWords >= 0 && i + Shared(maxWords, overlapWords) < |words|
    ensures Tails(Windows(words, maxWords, overlapWords, i), Shared(maxWords, overlapWords)) ==
              words[i + Shared(maxWords, overlapWords)..]
    decreases |words| - i
  {
    var o, step := Shared(maxWords, overlapWords), Advance(maxWords, overlapWords);
    var end := Min(i + maxWords, |words|);
    var w := Windows(words, maxWords, overlapWords, i);
    Unfold(words, maxWords, overlapWords, i);
    hide Windows;
    assert Tails(w, o) == words[i..end][o..] + Tails(w[1..], o);
    if end < |words| {
      hide Tails;
      assert i + step + o == i + maxWords == end;
      TailsRebuild(words, maxWords, overlapWords, i + step);
      SplitAt(words, i, end, o);
    }
  }

  /** With gaps instead of overlaps, fewer words come back. */
  lemma {:induction false} GapsLoseWords(words: seq<string>, maxWords: nat, overlapWords: int, i: nat)
    requires maxWords == 0 || overlapWords < 0
    requires i < |words|
    ensures |Tails(Windows(words, maxWords, overlapWords, i), 0)| <= |words| - i
    ensures i + maxWords < |words| || maxWords == 0 ==>
              |Tails(Windows(words, maxWords, overlapWords, i), 0)| < |words| - i
    decreases |words| - i
  {
    var step := Advance(maxWords, overlapWords);
    var end := Min(i + maxWords, |words|);
    var w := Windows(words, maxWords, overlapWords, i);
    assert w[0] == words[i..end];
    if end == |words| {
      assert w[1..] == [];
    } else {
      assert w[1..] == Windows(words, maxWords, overlapWords, i + step);
      if i + step < |words| {
        GapsLoseWords(words, maxWords, overlapWords, i + step);
      }
    }
  }

  /**
    Dropping the overlap rebuilds a page's words exactly when chunks hold words and either overlap or one chunk is
    enough.
   */
  lemma RebuildsExactly(words: seq<string>, maxWords: nat, overlapWords: int)
    requires words != []
    ensures (Rebuild(Windows(words, maxWords, overlapWords, 0), Shared(maxWords, overlapWords)) == words)
              <==> (maxWords >= 1 && (overlapWords >= 0 || |words| <= maxWords))
  {
    hide Windows;
    var o, step := Shared(maxWords, overlapWords), Advance(maxWords, overlapWords);
    Unfold(words, maxWords, overlapWords, 0);
    Unfold(words, maxWords, overlapWords, step);
    var end := Min(maxWords, |words|);
    if end < |words| {
      if maxWords >= 1 && overlapWords >= 0 {
        assert step + o == maxWords;
        TailsRebuild(words, maxWords, overlapWords, step);
        assert words[..end] + words[end..] == words;
      } else if step < |words| {
        GapsLoseWords(words, maxWords, overlapWords, step);
      }
    }
  }

  // ---------- The chunker ----------

  function PageNumber(pages: seq<string>, p: nat): int {
    if |pages| == 1 then 0 else p + 1
  }

  /** Windows as chunks, numbered from `first`. */
  function AsChunks(ws: seq<seq<string>>, first: nat, page: int): (r: seq<Chunk>)
    ensures |r| == |ws|
    ensures forall k :: 0 <= k < |ws| ==> r[k] == Chunk(Join(ws[k]), first + k, page)
  {
    seq(|ws|, k requires 0 <= k < |ws| => Chunk(Join(ws[k]), first + k, page))
  }

  /** The chunks of the first n pages. */
  function ChunksOf(pages: seq<string>, maxWords: nat, overlapWords: int, n: nat): seq<Chunk>
    requires n <= |pages|
  {
    if n == 0 then []
    else
      var before := ChunksOf(pages, maxWords, overlapWords, n - 1);
      before + AsChunks(Windows(Fields(pages[n - 1]), maxWords, overlapWords, 0), |before|, PageNumber(pages, n - 1))
  }

  lemma FirstWindow(words: seq<string>, maxWords: nat, overlapWords: int, i: nat, n: nat, page: int)
    requires i < |words|
    ensures var end := Min(i + maxWords, |words|);
            AsChunks(Windows(words, maxWords, overlapWords, i), n, page) ==
              [Chunk(Join(words[i..end]), n, page)] +
              AsChunks(if end == |words| then []
                  else Windows(words, maxWords, overlapWords, i + Advance(maxWords, overlapWords)),
                       n + 1, page)
  {
    var end := Min(i + maxWords, |words|);
    var rest := if end == |words| then []
        else Windows(words, maxWords, overlapWords, i + Advance(maxWords, overlapWords));
    assert Windows(words, maxWords, overlapWords, i) == [words[i..end]] + rest;
    hide Windows, Join, AsChunks;
    ChunksCons(words[i..end], rest, n, page);
  }

  lemma ChunksCons(w: seq<string>, rest: seq<seq<string>>, n: nat, page: int)
    ensures AsChunks([w] + rest, n, page) == [Chunk(Join(w), n, page)] + AsChunks(rest, n + 1, page)
  {
    hide Join;
    var all := [w] + rest;
    assert forall k :: 1 <= k < |all| ==> all[k] == rest[k - 1];
  }

  /** Appends the chunks of one page's words. */
  method ChunkPage(words: seq<string>, maxWords: nat, overlapWords: int, page: int, before: seq<Chunk>)
    returns (chunks: seq<Chunk>)
    ensures chunks == before + AsChunks(Windows(words, maxWords, overlapWords, 0), |before|, page)
  {
    hide Windows, Join, AsChunks;
    chunks := before;
    ghost var all := before + AsChunks(Windows(words, maxWords, overlapWords, 0), |before|, page);
    var chunkSeq := |before|;
    var i := 0;
    var done := |words| == 0;
    ghost var rest := Windows(words, maxWords, overlapWords, 0);
    NoWindows(words, maxWords, overlapWords);
    while !done && i < |words|
      invariant 0 <= i && chunkSeq == |chunks|
      invariant all == chunks + AsChunks(rest, |chunks|, page)
      invariant if done then rest == [] else rest == Windows(words, maxWords, overlapWords, i)
      decreases !done, |words| - i
    {
      FirstWindow(words, maxWords, overlapWords, i, |chunks|, page);
      var end := i + maxWords;
      if end > |words| {
        end := |words|;
      }
      chunks := chunks + [Chunk(Join(words[i..end]), chunkSeq, page)];
      chunkSeq := chunkSeq + 1;
      if end == |words| {
        done, rest := true, [];
      } else {
        var step := maxWords - overlapWords;
        if step <= 0 {
          step := 1;
        }
        i := i + step;
        rest := Windows(words, maxWords, overlapWords, i);
      }
    }
    PastTheEnd(words, maxWords, overlapWords, i);
  }

  lemma NoWindows(words: seq<string>, maxWords: nat, overlapWords: int)
    ensures words == [] ==> Windows(words, maxWords, overlapWords, 0) == []
  {
  }

  lemma PastTheEnd(words: seq<string>, maxWords: nat, overlapWords: int, i: nat)
    ensures i >= |words| ==> Windows(words, maxWords, overlapWords, i) == []
  {
  }

  method ChunkText(pages: seq<string>, maxWords: nat, overlapWords: int) returns (chunks: seq<Chunk>)
    ensures chunks == ChunksOf(pages, maxWords, overlapWords, |pages|)
    ensures forall k :: 0 <= k < |chunks| ==> chunks[k].index == k
  {
    hide Windows, Join, Fields;
    chunks := [];
    for p := 0 to |pages|
      invariant chunks == ChunksOf(pages, maxWords, overlapWords, p)
      invariant forall k :: 0 <= k < |chunks| ==> chunks[k].index == k
    {
      chunks := ChunkPage(Fields(pages[p]), maxWords, overlapWords, PageNumber(pages, p), chunks);
    }
  }

  /** The words of the texts of some chunks. */
  function WordsOf(chunks: seq<Chunk>): (r: seq<seq<string>>)
    ensures |r| == |chunks|
  {
    seq(|chunks|, k requires 0 <= k < |chunks| => Fields(chunks[k].text))
  }

  lemma WordsOfChunks(ws: seq<seq<string>>, first: nat, page: int)
    requires forall k :: 0 <= k < |ws| ==> AllWords(ws[k])
    ensures WordsOf(AsChunks(ws, first, page)) == ws
  {
    hide FieldsFrom, Join, AllWords, Fields;
    forall k | 0 <= k < |ws| ensures Fields(Join(ws[k])) == ws[k] {
      FieldsOfJoin(ws[k]);
    }
  }

  lemma WindowsHoldWords(words: seq<string>, maxWords: nat, overlapWords: int, k: nat)
    requires AllWords(words) && maxWords >= 1 && k < |Windows(words, maxWords, overlapWords, 0)|
    ensures AllWords(Windows(words, maxWords, overlapWords, 0)[k])
  {
    WindowAt(words, maxWords, overlapWords, 0, k);
  }

  /**
    From the chunk texts alone the words of every page come back: take the page's chunks in order, split them, and drop
    the overlap from all but the first.
   */
  lemma PagesRebuild(pages: seq<string>, maxWords: nat, overlapWords: int, p: nat)
    requires maxWords >= 1 && overlapWords >= 0 && p < |pages|
    ensures var before := |ChunksOf(pages, maxWords, overlapWords, p)|;
            var upto := ChunksOf(pages, maxWords, overlapWords, p + 1);
            && (forall k :: before <= k < |upto| ==> upto[k].page == if |pages| == 1 then 0 else p + 1)
            && Rebuild(WordsOf(upto[before..]), Shared(maxWords, overlapWords)) == Fields(pages[p])
  {
    hide Windows, FieldsFrom, Join, AllWords, Fields;
    var words := Fields(pages[p]);
    var ws := Windows(words, maxWords, overlapWords, 0);
    var before := |ChunksOf(pages, maxWords, overlapWords, p)|;
    var upto := ChunksOf(pages, maxWords, overlapWords, p + 1);
    assert AllWords(words) by { PageWords(pages[p]); }
    assert upto[before..] == AsChunks(ws, before, PageNumber(pages, p));
    forall k | 0 <= k < |ws| ensures AllWords(ws[k]) {
      WindowsHoldWords(words, maxWords, overlapWords, k);
    }
    WordsOfChunks(ws, before, PageNumber(pages, p));
    if words == [] {
      NoWindows(words, maxWords, overlapWords);
    } else {
      RebuildsExactly(words, maxWords, overlapWords);
    }
  }

  lemma PageWords(page: string)
    ensures AllWords(Fields(page))
  {
    FieldsAreWords("", page);
  }
}
