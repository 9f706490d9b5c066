/**
 * TextChunkingService: splits a product description into overlapping
 * windows of at most `chunkSize` bytes, cutting a window that is not the
 * last one back to its last space when that space lies past 70% of the
 * window, and prefixes every chunk with the product title.
 */
module TextChunking {
  import opened Wrappers
  import opened PhpText

  const DefaultChunkSize: int := 500
  const DefaultOverlap: int := 50
  /** Descriptions shorter than this many bytes are not chunked. */
  const ShortDescription: int := 100

  /** An element of a PHP list together with its key, which array_filter and array_map keep. */
  datatype Keyed = Keyed(index: nat, text: string)

  predicate IncreasingKeys(s: seq<Keyed>)
  {
    forall i, j :: 0 <= i < j < |s| ==> s[i].index < s[j].index
  }

  /**
   * The window read at `start`: substr($text, $start, $chunkSize), cut at its
   * last space when the window does not reach the end of the text and that
   * space lies strictly past 0.7 * chunkSize.
   */
  function Window(t: string, start: nat, chunkSize: int): string
    requires start < |t|
  {
    var raw := Substr(t, start, chunkSize);
    if start + chunkSize < |t| then
      match LastIndexOf(raw, ' ')
      case Some(lastSpace) => if 10 * lastSpace > 7 * chunkSize then raw[..lastSpace] else raw
      case None => raw
    else raw
  }

  /** A window is the substring of the text at `start`, at most chunkSize bytes long. */
  lemma WindowInText(t: string, start: nat, chunkSize: int)
    requires start < |t|
    ensures IsSubstringAt(Window(t, start, chunkSize), t, start)
    ensures chunkSize >= 0 ==> |Window(t, start, chunkSize)| <= chunkSize
  {
    var raw := Substr(t, start, chunkSize);
    assert IsSubstringAt(raw, t, start);
    if |Window(t, start, chunkSize)| < |raw| {
      SubstringOfSubstring(Window(t, start, chunkSize), raw, t, 0, start);
    }
  }

  /**
   * The cut rule: a window is either the raw substr() window, or that window
   * cut at its last space, which lies strictly past 0.7 * chunkSize, and only
   * when the window does not reach the end of the text; and whenever such a
   * space exists in a window that is not the last, the window is cut.
   */
  lemma WindowCutRule(t: string, start: nat, chunkSize: int)
    requires start < |t|
    ensures var raw, w := Substr(t, start, chunkSize), Window(t, start, chunkSize);
      w == raw ||
      (start + chunkSize < |t| && |w| < |raw| && raw[..|w|] == w && raw[|w|] == ' ' &&
       10 * |w| > 7 * chunkSize && forall k :: |w| < k < |raw| ==> raw[k] != ' ')
    ensures var raw, w := Substr(t, start, chunkSize), Window(t, start, chunkSize);
      start + chunkSize < |t| && (exists k :: 0 <= k < |raw| && raw[k] == ' ' && 10 * k > 7 * chunkSize)
      ==> |w| < |raw| && raw[|w|] == ' '
  {
  }

  /**
   * Where the next window starts: `len - overlap` further on, or `len + 1`
   * further on when the window was no longer than the overlap.
   */
  function NextStart(start: nat, len: nat, overlap: int): (next: nat)
    ensures next >= start + 1
    ensures len > overlap ==> next == start + len - overlap
    ensures len <= overlap ==> next == start + len + 1
  {
    var moved := start + len - overlap;
    if len <= overlap then moved + overlap + 1 else moved
  }

  /** The trimmed windows of `t` from `start` on, in loop order, before filtering. */
  function RawChunks(t: string, start: nat, chunkSize: int, overlap: int): seq<string>
    decreases |t| - start
  {
    if start >= |t| then []
    else
      var w := Window(t, start, chunkSize);
      [Trim(w)] + RawChunks(t, NextStart(start, |w|, overlap), chunkSize, overlap)
  }

  /**
   * array_filter($cs, fn ($c) => !empty(trim($c))) on a list whose keys start
   * at `base`: the surviving elements keep their keys.
   */
  function KeepNonEmpty(cs: seq<string>, base: nat): seq<Keyed>
  {
    if cs == [] then []
    else if IsPhpEmpty(Trim(cs[0])) then KeepNonEmpty(cs[1..], base + 1)
    else [Keyed(base, cs[0])] + KeepNonEmpty(cs[1..], base + 1)
  }

  /**
   * The filter keeps exactly the elements that are not empty after trimming,
   * each under its original key, in key order.
   */
  lemma {:induction false} KeepNonEmptyCorrect(cs: seq<string>, base: nat)
    ensures IncreasingKeys(KeepNonEmpty(cs, base))
    ensures forall e :: e in KeepNonEmpty(cs, base) ==>
      base <= e.index < base + |cs| && cs[e.index - base] == e.text && !IsPhpEmpty(Trim(e.text))
  {
    if cs != [] {
      var rest := KeepNonEmpty(cs[1..], base + 1);
      KeepNonEmptyCorrect(cs[1..], base + 1);
      var r := KeepNonEmpty(cs, base);
      var head := Keyed(base, cs[0]);
      if IsPhpEmpty(Trim(cs[0])) {
        assert r == rest;
      } else {
        assert r == [head] + rest;
      }
      forall e | e in r
        ensures base <= e.index < base + |cs| && cs[e.index - base] == e.text && !IsPhpEmpty(Trim(e.text))
      {
        if e != head || IsPhpEmpty(Trim(cs[0])) {
          assert e in rest;
          assert cs[1..][e.index - (base + 1)] == cs[e.index - base];
        }
      }
      if !IsPhpEmpty(Trim(cs[0])) {
        IncreasingCons(head, rest);
      }
    }
  }

  /** A key below every key of an increasing list can be put in front of it. */
  lemma IncreasingCons(head: Keyed, rest: seq<Keyed>)
    requires IncreasingKeys(rest)
    requires forall e :: e in rest ==> head.index < e.index
    ensures IncreasingKeys([head] + rest)
  {
    var r := [head] + rest;
    forall i, j | 0 <= i < j < |r| ensures r[i].index < r[j].index {
      assert r[j] == rest[j - 1];
      if i == 0 { assert r[j] in rest; }
      else { assert r[i] == rest[i - 1]; }
    }
  }

  /** No element that survives trimming is dropped. */
  lemma {:induction false} KeepNonEmptyComplete(cs: seq<string>, base: nat, j: nat)
    requires j < |cs| && !IsPhpEmpty(Trim(cs[j]))
    ensures Keyed(base + j, cs[j]) in KeepNonEmpty(cs, base)
  {
    var r := KeepNonEmpty(cs, base);
    if j == 0 {
      assert r == [Keyed(base, cs[0])] + KeepNonEmpty(cs[1..], base + 1);
    } else {
      KeepNonEmptyComplete(cs[1..], base + 1, j - 1);
      assert cs[1..][j - 1] == cs[j];
    }
  }

  /** One turn of the loop: the window at `start` is followed by the windows from the next start. */
  lemma RawChunksStep(done: seq<string>, t: string, start: nat, chunkSize: int, overlap: int)
    requires start < |t|
    ensures var w := Window(t, start, chunkSize);
      done + RawChunks(t, start, chunkSize, overlap) ==
      (done + [Trim(w)]) + RawChunks(t, NextStart(start, |w|, overlap), chunkSize, overlap)
  {
  }

  /** What chunkText returns, as a function of its arguments. */
  function Chunks(text: string, chunkSize: int, overlap: int): seq<Keyed>
  {
    var t := Trim(text);
    if IsPhpEmpty(t) then []
    else if |t| <= chunkSize then [Keyed(0, t)]
    else KeepNonEmpty(RawChunks(t, 0, chunkSize, overlap), 0)
  }

  /** The loop body's cut: the substring at `start`, shortened to its last space when that lies past 70%. */
  method CutWindow(t: string, start: nat, chunkSize: int) returns (chunk: string)
    requires start < |t|
    ensures chunk == Window(t, start, chunkSize)
  {
    chunk := Substr(t, start, chunkSize);
    if start + chunkSize < |t| {
      var lastSpace := LastIndexOf(chunk, ' ');
      if lastSpace.Some? && 10 * lastSpace.value > 7 * chunkSize {
        chunk := chunk[..lastSpace.value];
      }
    }
  }

  /** chunkText(): the sliding-window loop over the trimmed text. */
  method ChunkText(text: string, chunkSize: int, overlap: int) returns (chunks: seq<Keyed>)
    ensures chunks == Chunks(text, chunkSize, overlap)
  {
    var t := Trim(text);
    if IsPhpEmpty(t) {
      return [];
    }
    if |t| <= chunkSize {
      return [Keyed(0, t)];
    }
    var raw: seq<string> := [];
    var start: int := 0;
    var textLength := |t|;
    while start < textLength
      invariant 0 <= start
      invariant raw + RawChunks(t, start, chunkSize, overlap) == RawChunks(t, 0, chunkSize, overlap)
      decreases textLength - start
    {
      var chunk := CutWindow(t, start, chunkSize);
      RawChunksStep(raw, t, start, chunkSize, overlap);
      ghost var next := NextStart(start, |chunk|, overlap);
      raw := raw + [Trim(chunk)];
      var actualChunkLength := |chunk|;
      start := start + actualChunkLength - overlap;
      if actualChunkLength <= overlap {
        start := start + overlap + 1;
      }
      assert start == next;
    }
    assert RawChunks(t, start, chunkSize, overlap) == [];
    assert raw == raw + RawChunks(t, start, chunkSize, overlap);
    chunks := KeepNonEmpty(raw, 0);
  }

  /** Empty (or "0") text after trimming gives no chunk. */
  lemma ChunksOfEmpty(text: string)
    requires IsPhpEmpty(Trim(text))
    ensures forall chunkSize, overlap :: Chunks(text, chunkSize, overlap) == []
  {
  }

  /** Non-empty text that fits the window is one chunk: the trimmed text, under key 0. */
  lemma ChunksOfShort(text: string, chunkSize: int, overlap: int)
    requires !IsPhpEmpty(Trim(text)) && |Trim(text)| <= chunkSize
    ensures Chunks(text, chunkSize, overlap) == [Keyed(0, Trim(text))]
  {
  }

  /**
   * Every window of the loop is trimmed, a substring of the text and (for a
   * non-negative chunkSize) no longer than chunkSize.
   */
  lemma {:induction false} RawChunksShape(t: string, start: nat, chunkSize: int, overlap: int)
    ensures forall c :: c in RawChunks(t, start, chunkSize, overlap) ==>
      Trim(c) == c && IsSubstring(c, t) && (chunkSize >= 0 ==> |c| <= chunkSize)
    decreases |t| - start
  {
    if start < |t| {
      var w := Window(t, start, chunkSize);
      var c := Trim(w);
      RawChunksShape(t, NextStart(start, |w|, overlap), chunkSize, overlap);
      TrimIdempotent(w);
      TrimCorrect(w);
      WindowInText(t, start, chunkSize);
      SubstringOfSubstring(c, w, t, LeadingTrim(w), start);
    }
  }

  /**
   * chunkText's result: keys strictly increase, and every chunk is non-empty
   * (and not "0"), already trimmed, a substring of the trimmed text and at
   * most chunkSize bytes long.
   */
  lemma ChunksShape(text: string, chunkSize: int, overlap: int)
    ensures IncreasingKeys(Chunks(text, chunkSize, overlap))
    ensures forall e :: e in Chunks(text, chunkSize, overlap) ==>
      !IsPhpEmpty(e.text) && Trim(e.text) == e.text && IsSubstring(e.text, Trim(text)) &&
      (chunkSize >= 0 ==> |e.text| <= chunkSize)
  {
    var t := Trim(text);
    TrimIdempotent(text);
    if !IsPhpEmpty(t) {
      if |t| <= chunkSize {
        assert IsSubstringAt(t, t, 0);
      } else {
        var raw := RawChunks(t, 0, chunkSize, overlap);
        RawChunksShape(t, 0, chunkSize, overlap);
        KeepNonEmptyCorrect(raw, 0);
        forall e | e in Chunks(text, chunkSize, overlap)
          ensures !IsPhpEmpty(e.text) && Trim(e.text) == e.text
        {
          assert raw[e.index] in raw;
        }
      }
    }
  }

  /**
   * Progress: the window after `start` starts strictly later, so the loop
   * ends for every chunkSize and overlap, after at most |t| windows.
   */
  lemma {:induction false} RawChunksCount(t: string, start: nat, chunkSize: int, overlap: int)
    ensures |RawChunks(t, start, chunkSize, overlap)| <= if start < |t| then |t| - start else 0
    decreases |t| - start
  {
    if start < |t| {
      var w := Window(t, start, chunkSize);
      RawChunksCount(t, NextStart(start, |w|, overlap), chunkSize, overlap);
    }
  }

  /**
   * The window that reaches the end of the text does not end the loop when
   * it is longer than the overlap: one more chunk follows, holding the
   * text's last `overlap` bytes (trimmed), from offset `tail` on.
   */
  lemma TailOverlapChunk(t: string, start: nat, chunkSize: int, overlap: int, tail: nat)
    requires start < |t| <= start + chunkSize
    requires 0 < overlap < |t| - start
    requires tail == |t| - overlap
    ensures RawChunks(t, start, chunkSize, overlap) == [Trim(t[start..]), Trim(t[tail..])]
  {
    LastWindow(t, start, chunkSize);
    var w := Window(t, start, chunkSize);
    assert NextStart(start, |w|, overlap) == tail;
    calc {
      RawChunks(t, start, chunkSize, overlap);
      [Trim(w)] + RawChunks(t, tail, chunkSize, overlap);
      { FinalChunk(t, tail, chunkSize, overlap); }
      [Trim(w)] + [Trim(t[tail..])];
      [Trim(t[start..]), Trim(t[tail..])];
    }
  }

  /** A last window no longer than the overlap is the final chunk. */
  lemma FinalChunk(t: string, start: nat, chunkSize: int, overlap: int)
    requires start < |t| <= start + chunkSize
    requires |t| - start <= overlap
    ensures RawChunks(t, start, chunkSize, overlap) == [Trim(t[start..])]
  {
    LastWindow(t, start, chunkSize);
    var w := Window(t, start, chunkSize);
    assert NextStart(start, |w|, overlap) == |t| + 1;
    assert RawChunks(t, |t| + 1, chunkSize, overlap) == [];
  }

  /** The window that reaches the end of the text is the rest of the text, uncut. */
  lemma LastWindow(t: string, start: nat, chunkSize: int)
    requires start < |t| <= start + chunkSize
    ensures Window(t, start, chunkSize) == t[start..]
  {
  }

  /** Where the loop reads each window, from `start` on, in loop order. */
  function WindowStarts(t: string, start: nat, chunkSize: int, overlap: int): seq<nat>
    decreases |t| - start
  {
    if start >= |t| then []
    else [start] + WindowStarts(t, NextStart(start, |Window(t, start, chunkSize)|, overlap), chunkSize, overlap)
  }

  /**
   * The loop's i-th chunk is the trimmed window read at its i-th start; the
   * first start is where the loop begins, and every start lies in the text.
   */
  lemma {:induction false} WindowStartsChunks(t: string, start: nat, chunkSize: int, overlap: int)
    ensures var ss := WindowStarts(t, start, chunkSize, overlap);
      |ss| == |RawChunks(t, start, chunkSize, overlap)| && (start < |t| ==> ss != [] && ss[0] == start)
    ensures var ss := WindowStarts(t, start, chunkSize, overlap);
      forall i :: 0 <= i < |ss| ==>
        start <= ss[i] < |t| && RawChunks(t, start, chunkSize, overlap)[i] == Trim(Window(t, ss[i], chunkSize))
    decreases |t| - start
  {
    if start < |t| {
      var next := NextStart(start, |Window(t, start, chunkSize)|, overlap);
      WindowStartsChunks(t, next, chunkSize, overlap);
      var ss, rest := WindowStarts(t, start, chunkSize, overlap), WindowStarts(t, next, chunkSize, overlap);
      var cs, more := RawChunks(t, start, chunkSize, overlap), RawChunks(t, next, chunkSize, overlap);
      assert ss == [start] + rest && cs == [Trim(Window(t, start, chunkSize))] + more;
      forall i | 0 <= i < |ss|
        ensures start <= ss[i] < |t| && cs[i] == Trim(Window(t, ss[i], chunkSize))
      {
        if i > 0 {
          assert ss[i] == rest[i - 1] && cs[i] == more[i - 1];
        }
      }
    }
  }

  /**
   * Consecutive windows: the next start lies after the current one; when
   * the window is longer than a non-negative overlap the next window starts
   * `overlap` bytes before its end, and otherwise one byte past its end, so
   * the byte right after the window is read by no window exactly when the
   * window is no longer than the overlap (or the overlap is negative).
   */
  lemma WindowGap(t: string, start: nat, chunkSize: int, overlap: int, i: nat)
    requires i + 1 < |WindowStarts(t, start, chunkSize, overlap)|
    ensures var ss := WindowStarts(t, start, chunkSize, overlap);
      ss[i] < |t| && ss[i] < ss[i + 1] &&
      var len := |Window(t, ss[i], chunkSize)|;
      (len > overlap ==> ss[i + 1] == ss[i] + len - overlap) &&
      (len <= overlap ==> ss[i + 1] == ss[i] + len + 1) &&
      (ss[i] + len < ss[i + 1] <==> len <= overlap || overlap < 0)
  {
    NextWindowStart(t, start, chunkSize, overlap, i);
  }

  /** The start after the i-th one is the loop's next start. */
  lemma {:induction false} NextWindowStart(t: string, start: nat, chunkSize: int, overlap: int, i: nat)
    requires i + 1 < |WindowStarts(t, start, chunkSize, overlap)|
    ensures var ss := WindowStarts(t, start, chunkSize, overlap);
      ss[i] < |t| && ss[i + 1] == NextStart(ss[i], |Window(t, ss[i], chunkSize)|, overlap)
    decreases i
  {
    WindowStartsEmpty(t, start, chunkSize, overlap);
    WindowStartsCons(t, start, chunkSize, overlap);
    var next := NextStart(start, |Window(t, start, chunkSize)|, overlap);
    WindowStartsEmpty(t, next, chunkSize, overlap);
    if i == 0 {
      WindowStartsCons(t, next, chunkSize, overlap);
    } else {
      NextWindowStart(t, next, chunkSize, overlap, i - 1);
    }
  }

  /** After the last window the loop's next start is past the end of the text. */
  lemma {:induction false} LastStart(t: string, start: nat, chunkSize: int, overlap: int)
    requires WindowStarts(t, start, chunkSize, overlap) != []
    ensures var ss := WindowStarts(t, start, chunkSize, overlap);
      var last := ss[|ss| - 1];
      last < |t| && NextStart(last, |Window(t, last, chunkSize)|, overlap) >= |t|
    decreases |t| - start
  {
    var next := NextStart(start, |Window(t, start, chunkSize)|, overlap);
    var ss, rest := WindowStarts(t, start, chunkSize, overlap), WindowStarts(t, next, chunkSize, overlap);
    assert ss == [start] + rest;
    if rest != [] {
      LastStart(t, next, chunkSize, overlap);
      assert ss[|ss| - 1] == rest[|rest| - 1];
    }
  }

  /**
   * The sizes under which no byte is lost: a positive chunk size and an
   * overlap between 0 and 70% of it (the defaults 500 and 50 among them).
   */
  predicate CoveringSizes(chunkSize: int, overlap: int)
  {
    0 < chunkSize && 0 <= overlap && 10 * overlap <= 7 * chunkSize
  }

  /** Under covering sizes a window that does not reach the end of the text is longer than the overlap. */
  lemma InnerWindowLong(t: string, start: nat, chunkSize: int, overlap: int)
    requires CoveringSizes(chunkSize, overlap) && start < |t|
    ensures var len := |Window(t, start, chunkSize)|;
      start + len == |t| || len > overlap
  {
    WindowCutRule(t, start, chunkSize);
    if start + chunkSize >= |t| {
      LastWindow(t, start, chunkSize);
    }
  }

  /**
   * Under covering sizes the windows cover the text: every byte from
   * `start` on is read by some window.
   */
  lemma WindowsCover(t: string, start: nat, chunkSize: int, overlap: int, p: nat)
    requires CoveringSizes(chunkSize, overlap)
    requires start <= p < |t|
    ensures var ss := WindowStarts(t, start, chunkSize, overlap);
      exists i :: 0 <= i < |ss| && ss[i] <= p && p < ss[i] + |Window(t, ss[i], chunkSize)|
  {
    var i := CoveringWindow(t, start, chunkSize, overlap, p);
    CoveredBy(t, WindowStarts(t, start, chunkSize, overlap), chunkSize, p, i);
  }

  /** The index of a window that reads byte p, found by following the loop. */
  lemma {:induction false} CoveringWindow(t: string, start: nat, chunkSize: int, overlap: int, p: nat) returns (i: nat)
    requires CoveringSizes(chunkSize, overlap)
    requires start <= p < |t|
    ensures var ss := WindowStarts(t, start, chunkSize, overlap);
      i < |ss| && ss[i] <= p && p < ss[i] + |Window(t, ss[i], chunkSize)|
    decreases |t| - start
  {
    var len := |Window(t, start, chunkSize)|;
    var next := NextStart(start, len, overlap);
    var ss, rest := WindowStarts(t, start, chunkSize, overlap), WindowStarts(t, next, chunkSize, overlap);
    WindowStartsCons(t, start, chunkSize, overlap);
    InnerWindowLong(t, start, chunkSize, overlap);
    if p < start + len {
      i := 0;
    } else {
      var j := CoveringWindow(t, next, chunkSize, overlap, p);
      assert ss[j + 1] == rest[j];
      i := j + 1;
    }
  }

  /** The starts from a start inside the text: that start, then the starts from the next one. */
  lemma WindowStartsCons(t: string, start: nat, chunkSize: int, overlap: int)
    requires start < |t|
    ensures var next := NextStart(start, |Window(t, start, chunkSize)|, overlap);
      WindowStarts(t, start, chunkSize, overlap) == [start] + WindowStarts(t, next, chunkSize, overlap)
  {
  }

  /** The loop reads no window exactly when it starts past the text. */
  lemma WindowStartsEmpty(t: string, start: nat, chunkSize: int, overlap: int)
    ensures WindowStarts(t, start, chunkSize, overlap) == [] <==> start >= |t|
  {
  }

  /** A window read at the i-th start that holds byte p covers it. */
  lemma CoveredBy(t: string, ss: seq<nat>, chunkSize: int, p: nat, i: nat)
    requires i < |ss| && ss[i] <= p < |t| && p < ss[i] + |Window(t, ss[i], chunkSize)|
    ensures exists k :: 0 <= k < |ss| && ss[k] <= p && p < ss[k] + |Window(t, ss[k], chunkSize)|
  {
  }

  /** Under covering sizes the last window ends exactly at the end of the text. */
  lemma WindowsReachEnd(t: string, start: nat, chunkSize: int, overlap: int)
    requires CoveringSizes(chunkSize, overlap) && start < |t|
    ensures var ss := WindowStarts(t, start, chunkSize, overlap);
      ss != [] && ss[|ss| - 1] < |t| && ss[|ss| - 1] + |Window(t, ss[|ss| - 1], chunkSize)| == |t|
  {
    WindowStartsChunks(t, start, chunkSize, overlap);
    LastStart(t, start, chunkSize, overlap);
    var ss := WindowStarts(t, start, chunkSize, overlap);
    var last := ss[|ss| - 1];
    WindowInText(t, last, chunkSize);
    InnerWindowLong(t, last, chunkSize, overlap);
  }

  /**
   * With a window of 2 bytes and an overlap of 5 the jump past short
   * windows skips bytes: "abcdef" gives the chunks "ab" and "de", and "c"
   * and "f" appear in none.
   */
  lemma SkippedBytesExample()
    ensures WindowStarts("abcdef", 0, 2, 5) == [0, 3]
    ensures RawChunks("abcdef", 0, 2, 5) == ["ab", "de"]
  {
    var t := "abcdef";
    assert Window(t, 0, 2) == "ab" by {
      assert Substr(t, 0, 2) == "ab";
      assert LastIndexOf("ab", ' ') == None;
    }
    assert Window(t, 3, 2) == "de" by {
      assert Substr(t, 3, 2) == "de";
      assert LastIndexOf("de", ' ') == None;
    }
    assert NextStart(0, 2, 5) == 3 && NextStart(3, 2, 5) == 6;
    TrimOfTrimmed("ab");
    TrimOfTrimmed("de");
    assert RawChunks(t, 6, 2, 5) == [] && WindowStarts(t, 6, 2, 5) == [];
  }

  /** chunkProductDescription() with the title and description already trimmed. */
  function ProductChunks(title: string, description: string, chunkSize: int, overlap: int): seq<Keyed>
  {
    if IsPhpEmpty(description) || |description| < ShortDescription then [Keyed(0, Trim(title + " " + description))]
    else
      var cs := Chunks(description, chunkSize, overlap);
      seq(|cs|, i requires 0 <= i < |cs| => Keyed(cs[i].index, Trim(title + " - " + cs[i].text)))
  }

  /** chunkProductDescription(): trim both inputs, then chunk. */
  function ChunkProductDescription(title: string, description: string, chunkSize: int, overlap: int): seq<Keyed>
  {
    ProductChunks(Trim(title), Trim(description), chunkSize, overlap)
  }

  /** An empty description gives the trimmed title alone (the empty string when both are empty). */
  lemma ProductChunksNoDescription(title: string, description: string, chunkSize: int, overlap: int)
    requires Trim(description) == ""
    ensures ChunkProductDescription(title, description, chunkSize, overlap) == [Keyed(0, Trim(title))]
  {
    TrimIdempotent(title);
    TrimIdempotent(description);
    TrimJoined(Trim(title), Trim(description));
  }

  /**
   * A short (under 100 bytes) or empty description gives one chunk, key 0,
   * holding the trimmed title, a space and the trimmed description, where
   * the space is dropped when either side is empty.
   */
  lemma ProductChunksShort(title: string, description: string, chunkSize: int, overlap: int)
    requires IsPhpEmpty(Trim(description)) || |Trim(description)| < ShortDescription
    ensures var t, d := Trim(title), Trim(description);
      ChunkProductDescription(title, description, chunkSize, overlap) ==
        [Keyed(0, if d == "" then t else if t == "" then d else t + " " + d)]
  {
    TrimIdempotent(title);
    TrimIdempotent(description);
    TrimJoined(Trim(title), Trim(description));
  }

  /**
   * A long description is chunked by chunkText; the result has the same keys
   * in the same order, and each element is "<title> - <chunk>" (or
   * "- <chunk>" for an empty title).
   */
  lemma ProductChunksLong(title: string, description: string, chunkSize: int, overlap: int)
    requires !IsPhpEmpty(Trim(description)) && |Trim(description)| >= ShortDescription
    ensures var r := ChunkProductDescription(title, description, chunkSize, overlap);
      var cs := Chunks(description, chunkSize, overlap);
      |r| == |cs| &&
      forall i :: 0 <= i < |r| ==>
        r[i].index == cs[i].index &&
        r[i].text == (if Trim(title) == "" then "- " else Trim(title) + " - ") + cs[i].text
  {
    var t, d := Trim(title), Trim(description);
    TrimIdempotent(description);
    var cs := Chunks(d, chunkSize, overlap);
    ChunksShape(d, chunkSize, overlap);
    TrimIdempotent(title);
    forall i | 0 <= i < |cs|
      ensures Trim(t + " - " + cs[i].text) == (if t == "" then "- " else t + " - ") + cs[i].text
    {
      assert cs[i] in cs;
      TitledChunk(t, cs[i].text);
    }
  }

  /** Prefixing a trimmed, non-empty chunk with a trimmed title and " - " needs no further trimming, except for the empty title's leading space. */
  lemma TitledChunk(t: string, c: string)
    requires Trim(t) == t && c != "" && Trim(c) == c
    ensures Trim(t + " - " + c) == (if t == "" then "- " else t + " - ") + c
  {
    if t == "" {
      UntitledChunk(c);
      assert t + " - " + c == " - " + c;
    } else {
      TitledTextTrimmed(t, c);
      assert (if t == "" then "- " else t + " - ") + c == t + " - " + c;
    }
  }

  /** With an empty title only the space before the dash is trimmed away. */
  lemma UntitledChunk(c: string)
    requires c != "" && Trim(c) == c
    ensures Trim(" - " + c) == "- " + c
  {
    TitledTextTrimmed("", c);
    var s := "- " + c;
    TrimmedEnds(s);
    TrimStripsOuter(" ", s, "");
    assert " " + s + "" == " - " + c;
  }

  /**
   * When the title and the description are not both empty (after trimming,
   * "0" counting as empty), no chunk is empty: each can be embedded.
   */
  lemma ProductChunksNonEmpty(title: string, description: string, chunkSize: int, overlap: int)
    requires !(IsPhpEmpty(Trim(title)) && IsPhpEmpty(Trim(description)))
    ensures forall e :: e in ChunkProductDescription(title, description, chunkSize, overlap) ==>
      !IsPhpEmpty(Trim(e.text))
  {
    var t, d := Trim(title), Trim(description);
    var r := ChunkProductDescription(title, description, chunkSize, overlap);
    if IsPhpEmpty(d) || |d| < ShortDescription {
      TrimIdempotent(title);
      TrimIdempotent(description);
      SingleChunkNonEmpty(t, d);
    } else {
      LongChunksNonEmpty(title, description, chunkSize, overlap);
    }
  }

  /** Each chunk of a long description is "<title> - <chunk>" after trimming, never empty. */
  lemma LongChunksNonEmpty(title: string, description: string, chunkSize: int, overlap: int)
    requires !IsPhpEmpty(Trim(description)) && |Trim(description)| >= ShortDescription
    ensures forall e :: e in ChunkProductDescription(title, description, chunkSize, overlap) ==>
      !IsPhpEmpty(Trim(e.text))
  {
    var r := ChunkProductDescription(title, description, chunkSize, overlap);
    forall e | e in r ensures !IsPhpEmpty(Trim(e.text)) {
      var i :| 0 <= i < |r| && r[i] == e;
      LongChunkNonEmpty(title, description, chunkSize, overlap, i);
    }
  }

  /** The i-th chunk of a long description is not empty once trimmed. */
  lemma LongChunkNonEmpty(title: string, description: string, chunkSize: int, overlap: int, i: nat)
    requires !IsPhpEmpty(Trim(description)) && |Trim(description)| >= ShortDescription
    requires i < |ChunkProductDescription(title, description, chunkSize, overlap)|
    ensures !IsPhpEmpty(Trim(ChunkProductDescription(title, description, chunkSize, overlap)[i].text))
  {
    var cs := Chunks(description, chunkSize, overlap);
    ProductChunksLong(title, description, chunkSize, overlap);
    TrimIdempotent(title);
    ChunkTrimmed(description, chunkSize, overlap, i);
    TitledTextTrimmed(Trim(title), cs[i].text);
  }

  /** Each chunk is trimmed and not empty. */
  lemma ChunkTrimmed(text: string, chunkSize: int, overlap: int, i: nat)
    requires i < |Chunks(text, chunkSize, overlap)|
    ensures var c := Chunks(text, chunkSize, overlap)[i].text;
      c != "" && Trim(c) == c
  {
    ChunksShape(text, chunkSize, overlap);
    assert Chunks(text, chunkSize, overlap)[i] in Chunks(text, chunkSize, overlap);
  }

  /** A trimmed title, " - " and a trimmed non-empty chunk, as stored, need no trimming and are never empty. */
  lemma TitledTextTrimmed(t: string, c: string)
    requires Trim(t) == t && c != "" && Trim(c) == c
    ensures var s := (if t == "" then "- " else t + " - ") + c;
      Trim(s) == s && |s| >= 2
  {
    TrimmedEnds(t);
    TrimmedEnds(c);
    var s := (if t == "" then "- " else t + " - ") + c;
    assert s[0] == (if t == "" then '-' else t[0]);
    assert s[|s| - 1] == c[|c| - 1];
    TrimOfTrimmed(s);
  }

  /** The single chunk of a short description is not empty unless title and description both are. */
  lemma SingleChunkNonEmpty(t: string, d: string)
    requires Trim(t) == t && Trim(d) == d
    requires !(IsPhpEmpty(t) && IsPhpEmpty(d))
    ensures !IsPhpEmpty(Trim(Trim(t + " " + d)))
  {
    TrimIdempotent(t + " " + d);
    if d == "" {
      TrimJoined(t, d);
    } else if t == "" {
      TrimJoined(t, d);
    } else {
      TrimJoined(t, d);
      assert |t + " " + d| >= 3;
    }
  }

  /** Joining a trimmed title and a trimmed description with a space: only the space can be trimmed away. */
  lemma TrimJoined(t: string, d: string)
    requires Trim(t) == t && Trim(d) == d
    ensures Trim(t + " " + d) == if d == "" then t else if t == "" then d else t + " " + d
  {
    if d == "" {
      TrimTrailingSpace(t);
      assert t + " " + d == t + " ";
    } else if t == "" {
      TrimmedEnds(d);
      TrimStripsOuter(" ", d, "");
      assert " " + d + "" == t + " " + d;
    } else {
      TrimInnerSpace(t, d);
    }
  }

  /** A trimmed string followed by one space trims back to itself. */
  lemma TrimTrailingSpace(t: string)
    requires Trim(t) == t
    ensures Trim(t + " ") == t
  {
    if t == "" {
      TrimAllBlank(" ");
      assert t + " " == " ";
    } else {
      TrimmedEnds(t);
      TrimStripsOuter("", t, " ");
      assert "" + t + " " == t + " ";
    }
  }

  /** Two non-empty trimmed strings joined by a space are already trimmed. */
  lemma TrimInnerSpace(t: string, d: string)
    requires Trim(t) == t && Trim(d) == d && t != "" && d != ""
    ensures Trim(t + " " + d) == t + " " + d
  {
    TrimmedEnds(t);
    TrimmedEnds(d);
    var core := t + " " + d;
    assert core[0] == t[0] && core[|core| - 1] == d[|d| - 1];
    TrimStripsOuter("", core, "");
    assert "" + core + "" == core;
  }
}
