/** The loop at the end of `get_sign_content` that puts signed URLs in the place of
    the matches, keeping track of how far the text has moved. */
module SignContent {

  /** A match, as positions in the original text, and the URL to put there. */
  datatype Span = Span(start: nat, end: nat, url: string)

  /** Python's text[:i] and text[i:] for any integer i. */
  function Bound(i: int, length: nat): (b: nat)
    ensures b <= length
  {
    if i < 0 then if length + i < 0 then 0 else length + i
    else if i > length then length else i
  }

  function Before(text: string, i: int): string {
    text[..Bound(i, |text|)]
  }

  function From(text: string, i: int): string {
    text[Bound(i, |text|)..]
  }

  function Growth(s: Span): int {
    |s.url| - (s.end - s.start)
  }

  /** The text after one round of the loop. */
  function Once(text: string, s: Span, offset: int): string {
    Before(text, s.start + offset) + s.url + From(text, s.end + offset)
  }

  /** What the loop makes of a text that has already moved by `offset`. */
  function Replaced(text: string, spans: seq<Span>, offset: int): string
    decreases |spans|
  {
    if spans == [] then text
    else Replaced(Once(text, spans[0], offset), spans[1..], offset + Growth(spans[0]))
  }

  /** The gaps of the text from a position on, with the URLs between them. */
  function Spliced(text: string, spans: seq<Span>, from: nat): string
    requires Ascending(spans, from, |text|)
  {
    if spans == [] then text[from..]
    else text[from..spans[0].start] + spans[0].url + Spliced(text, spans[1..], spans[0].end)
  }

  /** As one pattern yields its matches: from left to right, without overlap. */
  predicate Ascending(spans: seq<Span>, from: nat, length: nat): (yes: bool)
    ensures yes ==> from <= length
  {
    if spans == [] then from <= length
    else from <= spans[0].start <= spans[0].end && Ascending(spans[1..], spans[0].end, length)
  }

  /** The text is done up to `from`, has moved by `offset`, and is untouched after. */
  ghost predicate DoneUpTo(done: string, text: string, from: nat, offset: int)
    requires from <= |text|
  {
    && |done| == |text| + offset && from + offset >= 0
    && done[from + offset..] == text[from..]
  }

  /** A round on the leftmost span left over: the text is done up to its end. */
  lemma RoundGoesOn(done: string, text: string, s: Span, from: nat, offset: int)
    requires from <= s.start <= s.end <= |text| && DoneUpTo(done, text, from, offset)
    ensures var next := Once(done, s, offset);
            && DoneUpTo(next, text, s.end, offset + Growth(s))
            && next[..s.end + offset + Growth(s)] == done[..from + offset] + (text[from..s.start] + s.url)
  {
    var next := Once(done, s, offset);
    assert done[s.start + offset..] == text[s.start..] by {
      assert done[from + offset..][s.start - from..] == text[from..][s.start - from..];
    }
    assert done[s.end + offset..] == text[s.end..] by {
      assert done[from + offset..][s.end - from..] == text[from..][s.end - from..];
    }
    assert done[..s.start + offset] == done[..from + offset] + text[from..s.start] by {
      assert done[from + offset..][..s.start - from] == text[from..][..s.start - from];
    }
    assert next == done[..s.start + offset] + s.url + text[s.end..];
  }

  lemma {:induction false} ReplacedIsSpliced(done: string, text: string, spans: seq<Span>, from: nat, offset: int)
    requires from <= |text| && Ascending(spans, from, |text|) && DoneUpTo(done, text, from, offset)
    ensures Replaced(done, spans, offset) == done[..from + offset] + Spliced(text, spans, from)
    decreases |spans|
  {
    if spans != [] {
      var s := spans[0];
      RoundGoesOn(done, text, s, from, offset);
      ReplacedIsSpliced(Once(done, s, offset), text, spans[1..], s.end, offset + Growth(s));
    }
  }

  /** For every text and every ascending list of matches, whatever the lengths of the
      URLs: each match is replaced and everything between the matches stays. */
  lemma AscendingSplice(text: string, spans: seq<Span>)
    requires Ascending(spans, 0, |text|)
    ensures Replaced(text, spans, 0) == Spliced(text, spans, 0)
  {
    ReplacedIsSpliced(text, text, spans, 0, 0);
  }

  lemma {:induction false} AscendingApart(spans: seq<Span>, from: nat, length: nat)
    requires Ascending(spans, from, length)
    ensures forall i :: 0 <= i < |spans| ==> from <= spans[i].start <= spans[i].end <= length
    ensures forall i, j :: 0 <= i < j < |spans| ==> spans[i].end <= spans[j].start
    decreases |spans|
  {
    if spans != [] {
      AscendingApart(spans[1..], spans[0].end, length);
      assert spans == [spans[0]] + spans[1..];
    }
  }

  /** How far the text has moved before match i: every URL before it counts for its length,
      every match before it against it. */
  function Shift(spans: seq<Span>, i: nat): int
    requires i <= |spans|
  {
    if i == 0 then 0 else (|spans[0].url| - (spans[0].end - spans[0].start)) + Shift(spans[1..], i - 1)
  }

  /** Where gap i begins: at the end of the match before it. */
  function GapStart(spans: seq<Span>, i: nat, from: nat): nat
    requires i <= |spans|
  {
    if i == 0 then from else spans[i - 1].end
  }

  function GapEnd(spans: seq<Span>, i: nat, length: nat): nat
    requires i <= |spans|
  {
    if i == |spans| then length else spans[i].start
  }

  ghost predicate PieceAt(result: string, piece: string, at: int) {
    0 <= at && at + |piece| <= |result| && result[at..at + |piece|] == piece
  }

  /** Every gap and every URL is in the result, moved by what stands before it, and nothing
      else is. */
  ghost predicate Pieces(text: string, spans: seq<Span>, from: nat, result: string)
    requires Ascending(spans, from, |text|)
  {
    AscendingApart(spans, from, |text|);
    && |result| == |text| - from + Shift(spans, |spans|)
    && (forall i :: 0 <= i < |spans| ==> PieceAt(result, spans[i].url, spans[i].start - from + Shift(spans, i)))
    && (forall i :: 0 <= i <= |spans| ==>
          PieceAt(result, text[GapStart(spans, i, from)..GapEnd(spans, i, |text|)],
                  GapStart(spans, i, from) - from + Shift(spans, i)))
  }

  lemma PieceLater(before: string, rest: string, piece: string, at: int)
    requires PieceAt(rest, piece, at)
    ensures PieceAt(before + rest, piece, |before| + at)
  {
  }

  lemma SplicedFirst(text: string, spans: seq<Span>, from: nat)
    requires Ascending(spans, from, |text|) && spans != []
    ensures from <= spans[0].start <= spans[0].end <= |text| && Ascending(spans[1..], spans[0].end, |text|)
    ensures Spliced(text, spans, from)
         == (text[from..spans[0].start] + spans[0].url) + Spliced(text, spans[1..], spans[0].end)
  {
    AscendingApart(spans, from, |text|);
  }

  lemma FirstPieces(gap: string, url: string, rest: string)
    ensures PieceAt(gap + url + rest, gap, 0) && PieceAt(gap + url + rest, url, |gap|)
  {
  }

  lemma {:induction false} SplicedLength(text: string, spans: seq<Span>, from: nat)
    requires Ascending(spans, from, |text|)
    ensures |Spliced(text, spans, from)| == |text| - from + Shift(spans, |spans|)
    decreases |spans|
  {
    if spans != [] {
      SplicedFirst(text, spans, from);
      SplicedLength(text, spans[1..], spans[0].end);
    }
  }

  /** A later piece of the list is an earlier one of its tail. */
  lemma PiecesOfTail(spans: seq<Span>, i: nat, from: nat, length: nat)
    requires 0 < i <= |spans|
    ensures Shift(spans, i) == |spans[0].url| - (spans[0].end - spans[0].start) + Shift(spans[1..], i - 1)
    ensures GapStart(spans, i, from) == GapStart(spans[1..], i - 1, spans[0].end)
    ensures GapEnd(spans, i, length) == GapEnd(spans[1..], i - 1, length)
  {
  }

  lemma {:induction false} SplicedUrl(text: string, spans: seq<Span>, from: nat, i: nat)
    requires Ascending(spans, from, |text|) && i < |spans|
    ensures PieceAt(Spliced(text, spans, from), spans[i].url, spans[i].start - from + Shift(spans, i))
    decreases i
  {
    SplicedFirst(text, spans, from);
    var s, tail := spans[0], spans[1..];
    var gap, rest := text[from..s.start], Spliced(text, tail, s.end);
    if i == 0 {
      FirstPieces(gap, s.url, rest);
    } else {
      hide Spliced, Ascending, PieceAt, Shift;
      PiecesOfTail(spans, i, from, |text|);
      SplicedUrl(text, tail, s.end, i - 1);
      PieceLater(gap + s.url, rest, spans[i].url, spans[i].start - s.end + Shift(tail, i - 1));
    }
  }

  lemma {:induction false} SplicedGap(text: string, spans: seq<Span>, from: nat, i: nat)
    requires Ascending(spans, from, |text|) && i <= |spans|
    ensures 0 <= GapStart(spans, i, from) <= GapEnd(spans, i, |text|) <= |text|
    ensures PieceAt(Spliced(text, spans, from), text[GapStart(spans, i, from)..GapEnd(spans, i, |text|)],
                    GapStart(spans, i, from) - from + Shift(spans, i))
    decreases i, 1
  {
    if spans == [] {
      assert PieceAt(text[from..], text[from..], 0);
    } else if i == 0 {
      SplicedFirst(text, spans, from);
      hide Spliced, Ascending, PieceAt;
      FirstPieces(text[from..spans[0].start], spans[0].url, Spliced(text, spans[1..], spans[0].end));
    } else {
      SplicedFirst(text, spans, from);
      LaterGap(text, spans, from, i);
    }
  }

  lemma LaterGap(text: string, spans: seq<Span>, from: nat, i: nat)
    requires Ascending(spans, from, |text|) && 0 < i <= |spans|
    requires from <= spans[0].start <= spans[0].end <= |text| && Ascending(spans[1..], spans[0].end, |text|)
    requires Spliced(text, spans, from)
          == (text[from..spans[0].start] + spans[0].url) + Spliced(text, spans[1..], spans[0].end)
    ensures 0 <= GapStart(spans, i, from) <= GapEnd(spans, i, |text|) <= |text|
    ensures PieceAt(Spliced(text, spans, from), text[GapStart(spans, i, from)..GapEnd(spans, i, |text|)],
                    GapStart(spans, i, from) - from + Shift(spans, i))
    decreases i, 0
  {
    hide Spliced, Ascending, PieceAt, Shift, GapStart, GapEnd;
    var s, tail := spans[0], spans[1..];
    PiecesOfTail(spans, i, from, |text|);
    SplicedGap(text, tail, s.end, i - 1);
    PieceLater(text[from..s.start] + s.url, Spliced(text, tail, s.end),
               text[GapStart(tail, i - 1, s.end)..GapEnd(tail, i - 1, |text|)],
               GapStart(tail, i - 1, s.end) - s.end + Shift(tail, i - 1));
  }

  lemma SplicedPieces(text: string, spans: seq<Span>, from: nat)
    requires Ascending(spans, from, |text|)
    ensures Pieces(text, spans, from, Spliced(text, spans, from))
  {
    hide PieceAt, Spliced, Ascending;
    SplicedLength(text, spans, from);
    forall i | 0 <= i < |spans|
      ensures PieceAt(Spliced(text, spans, from), spans[i].url, spans[i].start - from + Shift(spans, i))
    {
      SplicedUrl(text, spans, from, i);
    }
    forall i | 0 <= i <= |spans|
      ensures 0 <= GapStart(spans, i, from) <= GapEnd(spans, i, |text|) <= |text|
      ensures PieceAt(Spliced(text, spans, from), text[GapStart(spans, i, from)..GapEnd(spans, i, |text|)],
                      GapStart(spans, i, from) - from + Shift(spans, i))
    {
      SplicedGap(text, spans, from, i);
    }
  }

  method ReplaceAll(content: string, signedUrls: seq<Span>) returns (text: string)
    ensures text == Replaced(content, signedUrls, 0)
    ensures Ascending(signedUrls, 0, |content|) ==>
              text == Spliced(content, signedUrls, 0) && Pieces(content, signedUrls, 0, text)
  {
    text := content;
    var offset := 0;
    for i := 0 to |signedUrls|
      invariant Replaced(text, signedUrls[i..], offset) == Replaced(content, signedUrls, 0)
    {
      var s := signedUrls[i];
      assert signedUrls[i..][1..] == signedUrls[i + 1..];
      text := Before(text, s.start + offset) + s.url + From(text, s.end + offset);
      offset := offset + (|s.url| - (s.end - s.start));
    }
    if Ascending(signedUrls, 0, |content|) {
      AscendingSplice(content, signedUrls);
      SplicedPieces(content, signedUrls, 0);
    }
  }

  // ---------- matches out of order ----------

  /** Matches and URLs are not empty. */
  predicate Proper(spans: seq<Span>) {
    forall s :: s in spans ==> s.start < s.end && s.url != []
  }

  /** The place d of the match m tells whether m is replaced before or after s, a match
      to its right: the text there, or for the place after the match what s puts there, is
      not what the URL of m has there, and s moves the text by more than d. */
  predicate Tells(text: string, s: Span, m: Span, d: nat) {
    && m.start + d < |text| && d <= m.end - m.start && d < |m.url| && d < Growth(s)
    && text[m.start + d] != m.url[d]
    && (d == m.end - m.start && s.url != [] ==> s.url[0] != m.url[d])
  }

  ghost predicate Telling(text: string, s: Span, m: Span) {
    exists d: nat :: Tells(text, s, m, d)
  }

  /** Some place tells of every match that has a match to its right listed before it. */
  ghost predicate Visible(text: string, spans: seq<Span>) {
    forall i, j :: 0 <= i < j < |spans| && spans[j].start < spans[i].start ==> Telling(text, spans[i], spans[j])
  }

  /** Whatever stands between the matches, the loop replaces each of them. */
  ghost predicate RightForAllTexts(spans: seq<Span>, sorted: seq<Span>, length: nat)
    requires Ascending(sorted, 0, length)
  {
    forall text: string :: |text| == length ==> Replaced(text, spans, 0) == Spliced(text, sorted, 0)
  }

  lemma AscendingDistinct(sorted: seq<Span>, from: nat, length: nat, i: nat, j: nat)
    requires Ascending(sorted, from, length) && Proper(sorted) && i < j < |sorted|
    ensures sorted[i] != sorted[j]
  {
    AscendingApart(sorted, from, length);
    assert sorted[i] in sorted;
  }

  lemma {:induction false} CountOne(sorted: seq<Span>, from: nat, length: nat, s: Span)
    requires Ascending(sorted, from, length) && Proper(sorted)
    ensures multiset(sorted)[s] <= 1
    decreases |sorted|
  {
    if sorted != [] {
      assert sorted == [sorted[0]] + sorted[1..];
      forall x | x in sorted[1..] ensures x in sorted {
      }
      CountOne(sorted[1..], sorted[0].end, length, s);
      if s == sorted[0] && s in sorted[1..] {
        var j :| 0 <= j < |sorted| - 1 && sorted[1..][j] == s;
        AscendingDistinct(sorted, from, length, 0, j + 1);
      }
    }
  }

  lemma CountTwice(spans: seq<Span>, i: nat, j: nat)
    requires i < j < |spans| && spans[i] == spans[j]
    ensures multiset(spans)[spans[i]] >= 2
  {
    assert spans == spans[..i + 1] + spans[i + 1..];
    assert spans[i + 1..][j - i - 1] == spans[j];
    assert spans[..i + 1][i] == spans[i];
  }

  /** In a permutation of an ascending list any two members lie apart. */
  lemma Rearranged(spans: seq<Span>, sorted: seq<Span>, from: nat, length: nat, i: nat, j: nat)
    requires Ascending(sorted, from, length) && Proper(sorted) && multiset(spans) == multiset(sorted)
    requires i < j < |spans|
    ensures spans[i].end <= spans[j].start || spans[j].end <= spans[i].start
  {
    AscendingApart(sorted, from, length);
    CountOne(sorted, from, length, spans[i]);
    if spans[i] == spans[j] {
      CountTwice(spans, i, j);
    } else {
      assert spans[i] in multiset(sorted) && spans[j] in multiset(sorted);
      var a :| 0 <= a < |sorted| && sorted[a] == spans[i];
      var b :| 0 <= b < |sorted| && sorted[b] == spans[j];
    }
  }

  /** Every later write begins to the right of the position. */
  predicate Beyond(spans: seq<Span>, offset: int, position: int) {
    forall s :: s in spans ==> s.start + offset > position
  }

  /** Any two spans lie apart, and one that is listed before a span to its left grows. */
  predicate Apart(spans: seq<Span>) {
    forall i, j :: 0 <= i < j < |spans| ==>
      spans[i].end <= spans[j].start || (spans[j].end <= spans[i].start && Growth(spans[i]) > 0)
  }

  predicate Holds(text: string, at: int, c: char) {
    0 <= at < |text| && text[at] == c
  }

  lemma WrittenBeyond(text: string, s: Span, offset: int, position: nat, c: char)
    requires Holds(text, position, c) && s.start + offset > position
    ensures Holds(Once(text, s, offset), position, c)
  {
  }

  /** A round that writes beyond the position leaves all later ones beyond it: to the
      right of the span the growth makes up for the URL, to its left it is positive. */
  lemma {:induction false} NeverWritten(text: string, spans: seq<Span>, offset: int, position: nat, c: char)
    requires Holds(text, position, c) && Proper(spans) && Apart(spans) && Beyond(spans, offset, position)
    ensures Holds(Replaced(text, spans, offset), position, c)
    decreases |spans|, 1
  {
    if spans != [] {
      assert spans[0] in spans;
      StillBeyond(spans, offset, position);
      FirstWrittenBeyond(text, spans, offset, position, c);
    }
  }

  lemma FirstWrittenBeyond(text: string, spans: seq<Span>, offset: int, position: nat, c: char)
    requires spans != [] && Holds(text, position, c) && Proper(spans[1..]) && Apart(spans[1..])
    requires spans[0].start + offset > position && Beyond(spans[1..], offset + Growth(spans[0]), position)
    ensures Holds(Replaced(text, spans, offset), position, c)
    decreases |spans|, 0
  {
    WrittenBeyond(text, spans[0], offset, position, c);
    hide Once, Holds, Apart, Proper, Beyond;
    NeverWritten(Once(text, spans[0], offset), spans[1..], offset + Growth(spans[0]), position, c);
  }

  lemma StillBeyond(spans: seq<Span>, offset: int, position: nat)
    requires spans != [] && Proper(spans) && Apart(spans) && Beyond(spans, offset, position)
    ensures Proper(spans[1..]) && Apart(spans[1..]) && Beyond(spans[1..], offset + Growth(spans[0]), position)
  {
    var s, rest := spans[0], spans[1..];
    assert s in spans;
    forall x | x in rest ensures x in spans && x.start + offset + Growth(s) > position {
      var j :| 0 <= j < |rest| && rest[j] == x;
      assert x == spans[j + 1];
    }
  }

  /** The first place at which the two lists differ. */
  predicate Differ(spans: seq<Span>, sorted: seq<Span>, k: nat) {
    && k < |spans| && k < |sorted| && spans[k] != sorted[k]
    && forall i :: 0 <= i < k ==> spans[i] == sorted[i]
  }

  lemma FirstDifference(spans: seq<Span>, sorted: seq<Span>) returns (k: nat)
    requires |spans| == |sorted| && spans != sorted
    ensures Differ(spans, sorted, k)
  {
    k := 0;
    while spans[k] == sorted[k]
      invariant k < |spans| && forall i :: 0 <= i < k ==> spans[i] == sorted[i]
      decreases |spans| - k
    {
      k := k + 1;
    }
  }

  ghost predicate SameSpans(text: string, spans: seq<Span>, sorted: seq<Span>, from: nat) {
    && Ascending(sorted, from, |text|) && Proper(sorted)
    && multiset(spans) == multiset(sorted) && Proper(spans) && Apart(spans) && Visible(text, spans)
  }

  lemma VisibleTail(text: string, spans: seq<Span>)
    requires spans != [] && Visible(text, spans)
    ensures Visible(text, spans[1..])
  {
    hide Telling;
    forall i, j | 0 <= i < j < |spans[1..]| && spans[1..][j].start < spans[1..][i].start
      ensures Telling(text, spans[1..][i], spans[1..][j])
    {
      assert spans[1..][i] == spans[i + 1] && spans[1..][j] == spans[j + 1];
    }
  }

  lemma Tail(spans: seq<Span>)
    requires spans != []
    ensures multiset(spans[1..]) == multiset(spans) - multiset{spans[0]}
    ensures Proper(spans) ==> Proper(spans[1..])
    ensures Apart(spans) ==> Apart(spans[1..])
  {
    assert spans == [spans[0]] + spans[1..];
    assert forall x :: x in spans[1..] ==> x in spans;
  }

  lemma SameTail(text: string, spans: seq<Span>, sorted: seq<Span>, from: nat)
    requires SameSpans(text, spans, sorted, from) && spans != [] && sorted != [] && spans[0] == sorted[0]
    ensures SameSpans(text, spans[1..], sorted[1..], sorted[0].end)
  {
    Tail(spans);
    Tail(sorted);
    VisibleTail(text, spans);
    hide Proper, Apart, Visible;
  }

  /** The rest of the loop makes of what is done the text that the splice wants. */
  ghost predicate Right(done: string, text: string, spans: seq<Span>, sorted: seq<Span>, from: nat, offset: int)
    requires Ascending(sorted, from, |text|) && DoneUpTo(done, text, from, offset)
  {
    Replaced(done, spans, offset) == done[..from + offset] + Spliced(text, sorted, from)
  }

  /** At the place that tells of the first misplaced match, its URL is missing. */
  lemma {:induction false} Misplaced(done: string, text: string, spans: seq<Span>, sorted: seq<Span>,
                                     from: nat, offset: int, k: nat)
    requires SameSpans(text, spans, sorted, from) && Differ(spans, sorted, k)
    requires DoneUpTo(done, text, from, offset)
    ensures !Right(done, text, spans, sorted, from, offset)
    decreases k
  {
    hide SameSpans, DoneUpTo, Once, Right, Ascending, Differ, Growth;
    DifferTail(spans, sorted, k);
    SameAscending(text, spans, sorted, from);
    if k > 0 {
      var s := spans[0];
      SameTail(text, spans, sorted, from);
      RoundReaches(done, text, spans, sorted, from, offset);
      Misplaced(Once(done, s, offset), text, spans[1..], sorted[1..], s.end, offset + Growth(s), k - 1);
    } else {
      UrlMissing(done, text, spans, sorted, from, offset);
    }
  }

  lemma SameAscending(text: string, spans: seq<Span>, sorted: seq<Span>, from: nat)
    requires SameSpans(text, spans, sorted, from)
    ensures Ascending(sorted, from, |text|)
  {
  }

  lemma DifferTail(spans: seq<Span>, sorted: seq<Span>, k: nat)
    requires Differ(spans, sorted, k)
    ensures spans != [] && sorted != []
    ensures if k == 0 then spans[0] != sorted[0]
            else spans[0] == sorted[0] && Differ(spans[1..], sorted[1..], k - 1)
  {
  }

  /** A round on a span in its place changes neither side of the comparison. */
  lemma RoundReaches(done: string, text: string, spans: seq<Span>, sorted: seq<Span>, from: nat, offset: int)
    requires Ascending(sorted, from, |text|) && DoneUpTo(done, text, from, offset)
    requires spans != [] && sorted != [] && spans[0] == sorted[0]
    ensures var s := spans[0];
            var next, offset' := Once(done, s, offset), offset + Growth(s);
            && Ascending(sorted[1..], s.end, |text|) && DoneUpTo(next, text, s.end, offset')
            && (Right(done, text, spans, sorted, from, offset)
                <==> Right(next, text, spans[1..], sorted[1..], s.end, offset'))
  {
    AscendingApart(sorted, from, |text|);
    RoundGoesOn(done, text, spans[0], from, offset);
    var s := spans[0];
    JoinThree(done[..from + offset], text[from..s.start], s.url, Spliced(text, sorted[1..], s.end));
    hide Once, DoneUpTo;
  }

  lemma JoinThree(a: string, b: string, c: string, d: string)
    ensures a + (b + c + d) == a + (b + c) + d
  {
  }

  lemma UntouchedAt(done: string, text: string, from: nat, offset: int, at: nat)
    requires from <= at < |text| && DoneUpTo(done, text, from, offset)
    ensures Holds(done, at + offset, text[at])
  {
    assert done[from + offset..][at - from] == text[from..][at - from];
  }

  lemma UrlExpected(done: string, text: string, sorted: seq<Span>, from: nat, offset: int, d: nat)
    requires Ascending(sorted, from, |text|) && DoneUpTo(done, text, from, offset) && sorted != [] && d < |sorted[0].url|
    ensures Holds(done[..from + offset] + Spliced(text, sorted, from), sorted[0].start + offset + d, sorted[0].url[d])
  {
    AscendingApart(sorted, from, |text|);
    var m, before := sorted[0], done[..from + offset];
    var rest := Spliced(text, sorted[1..], m.end);
    assert |before| == from + offset && |text[from..m.start]| == m.start - from;
    assert Spliced(text, sorted, from) == text[from..m.start] + m.url + rest;
    hide Ascending, Spliced;
    assert (text[from..m.start] + m.url + rest)[m.start - from + d] == m.url[d];
  }

  /** The round on s writes the place right after the match or leaves it as it is. */
  lemma NotTheUrl(done: string, text: string, s: Span, m: Span, from: nat, offset: int, d: nat)
    requires from <= m.start <= m.end <= s.start <= s.end && s.url != [] && Tells(text, s, m, d)
    requires DoneUpTo(done, text, from, offset)
    ensures var y := if s.start == m.start + d then s.url[0] else text[m.start + d];
            y != m.url[d] && Holds(Once(done, s, offset), m.start + d + offset, y)
  {
    UntouchedAt(done, text, from, offset, m.start + d);
    if s.start > m.start + d {
      WrittenBeyond(done, s, offset, m.start + d + offset, text[m.start + d]);
    } else {
      BeginsWith(Before(done, s.start + offset), s.url, From(done, s.end + offset));
    }
  }

  lemma BeginsWith(a: string, b: string, c: string)
    requires b != []
    ensures Holds(a + b + c, |a|, b[0])
  {
  }

  lemma UrlMissing(done: string, text: string, spans: seq<Span>, sorted: seq<Span>, from: nat, offset: int)
    requires SameSpans(text, spans, sorted, from) && spans != [] && sorted != [] && spans[0] != sorted[0]
    requires DoneUpTo(done, text, from, offset)
    ensures !Right(done, text, spans, sorted, from, offset)
  {
    var s, m := spans[0], sorted[0];
    AscendingApart(sorted, from, |text|);
    var d := OvertakingRound(text, spans, sorted, from);
    NotTheUrl(done, text, s, m, from, offset, d);
    UrlExpected(done, text, sorted, from, offset, d);
    var at := m.start + d + offset;
    var y := if s.start == m.start + d then s.url[0] else text[m.start + d];
    hide Apart, SameSpans, Ascending, Spliced, DoneUpTo, Proper;
    assert Beyond(spans[1..], offset + Growth(s), at);
    hide Beyond, Once;
    NeverWritten(Once(done, s, offset), spans[1..], offset + Growth(s), at, y);
  }

  /** A first span that is not the leftmost moves all others beyond the place that tells
      of the leftmost. */
  lemma OvertakingRound(text: string, spans: seq<Span>, sorted: seq<Span>, from: nat) returns (d: nat)
    requires SameSpans(text, spans, sorted, from) && spans != [] && sorted != [] && spans[0] != sorted[0]
    ensures spans[0].url != [] && sorted[0].end <= spans[0].start <= spans[0].end
    ensures Tells(text, spans[0], sorted[0], d)
    ensures Beyond(spans[1..], Growth(spans[0]), sorted[0].start + d)
    ensures Proper(spans[1..]) && Apart(spans[1..])
  {
    AscendingApart(sorted, from, |text|);
    var s, m := spans[0], sorted[0];
    forall x | x in spans ensures x == m || x.start >= m.end {
      assert x in multiset(sorted);
      var a :| 0 <= a < |sorted| && sorted[a] == x;
    }
    assert s in spans && m in sorted;
    assert m in multiset(spans);
    var k :| 0 <= k < |spans| && spans[k] == m;
    assert Telling(text, s, m);
    d :| Tells(text, s, m, d);
    forall x | x in spans[1..] ensures x.start + Growth(s) > m.start + d {
      var j :| 0 <= j < |spans| - 1 && spans[1..][j] == x;
      assert x == spans[j + 1] && x in spans;
    }
    Tail(spans);
  }

  lemma SameLength(spans: seq<Span>, sorted: seq<Span>)
    requires multiset(spans) == multiset(sorted)
    ensures |spans| == |sorted|
  {
    assert |multiset(spans)| == |spans|;
  }

  lemma SameHead(spans: seq<Span>, sorted: seq<Span>, from: nat, length: nat)
    requires Ascending(spans, from, length) && Ascending(sorted, from, length)
    requires Proper(spans) && Proper(sorted) && multiset(spans) == multiset(sorted)
    requires spans != [] && sorted != []
    ensures spans[0] == sorted[0]
  {
    AscendingApart(spans, from, length);
    AscendingApart(sorted, from, length);
    var s, m := spans[0], sorted[0];
    assert s in spans && m in sorted;
    assert s in multiset(sorted) && m in multiset(spans);
    var a :| 0 <= a < |sorted| && sorted[a] == s;
    var b :| 0 <= b < |spans| && spans[b] == m;
  }

  lemma SameParts(spans: seq<Span>, sorted: seq<Span>)
    requires spans != [] && sorted != [] && spans[0] == sorted[0] && spans[1..] == sorted[1..]
    ensures spans == sorted
  {
    assert spans == [spans[0]] + spans[1..] && sorted == [sorted[0]] + sorted[1..];
  }

  lemma {:induction false} SortedIsUnique(spans: seq<Span>, sorted: seq<Span>, from: nat, length: nat)
    requires Ascending(spans, from, length) && Ascending(sorted, from, length)
    requires Proper(spans) && Proper(sorted) && multiset(spans) == multiset(sorted)
    ensures spans == sorted
    decreases |spans|
  {
    SameLength(spans, sorted);
    if spans != [] {
      SameHead(spans, sorted, from, length);
      Tail(spans);
      Tail(sorted);
      hide Proper, Apart;
      assert Ascending(spans[1..], spans[0].end, length) && Ascending(sorted[1..], sorted[0].end, length);
      hide Ascending;
      SortedIsUnique(spans[1..], sorted[1..], spans[0].end, length);
      SameParts(spans, sorted);
    }
  }

  lemma RearrangedApart(spans: seq<Span>, sorted: seq<Span>, from: nat, length: nat)
    requires Ascending(sorted, from, length) && Proper(sorted) && multiset(spans) == multiset(sorted)
    requires Proper(spans) && OvertakenGrow(spans)
    ensures Apart(spans)
  {
    forall i, j | 0 <= i < j < |spans|
      ensures spans[i].end <= spans[j].start || (spans[j].end <= spans[i].start && Growth(spans[i]) > 0)
    {
      Rearranged(spans, sorted, from, length, i, j);
      assert spans[j] in spans;
    }
  }

  /** A match grows if a later listed one lies to its left. */
  predicate OvertakenGrow(spans: seq<Span>) {
    forall i, j :: 0 <= i < j < |spans| && spans[j].start < spans[i].start ==> Growth(spans[i]) > 0
  }

  lemma SameMembers(spans: seq<Span>, sorted: seq<Span>)
    requires multiset(spans) == multiset(sorted) && Proper(spans)
    ensures Proper(sorted)
  {
    forall x | x in sorted ensures x in spans {
      assert x in multiset(sorted);
    }
  }

  /** Matches are listed pattern after pattern, not left to right. On a text on which each
      overtaken match can be told, any number of them, in whatever order, is replaced
      rightly if and only if the list happens to go from left to right. */
  lemma InOrderExactly(text: string, spans: seq<Span>, sorted: seq<Span>)
    requires Ascending(sorted, 0, |text|) && multiset(spans) == multiset(sorted)
    requires Proper(spans) && Visible(text, spans)
    ensures Replaced(text, spans, 0) == Spliced(text, sorted, 0) <==> Ascending(spans, 0, |text|)
  {
    SameMembers(spans, sorted);
    if Ascending(spans, 0, |text|) {
      SortedIsUnique(spans, sorted, 0, |text|);
      AscendingSplice(text, sorted);
    } else {
      SameLength(spans, sorted);
      RearrangedApart(spans, sorted, 0, |text|);
      var k := FirstDifference(spans, sorted);
      Misplaced(text, text, spans, sorted, 0, 0, k);
      assert Replaced(text, spans, 0) != text[..0] + Spliced(text, sorted, 0);
    }
  }

  // ---------- contents as the code meets them ----------

  /** A match without a query, in the terms of the code: the signed URL is the match and
      then the query mark and more, and in the text no query follows. */
  predicate Queryless(text: string, s: Span) {
    && s.start < s.end <= |text| && |s.url| > s.end - s.start
    && s.url[..s.end - s.start] == text[s.start..s.end]
    && s.url[0] == '/' && s.url[s.end - s.start] == '?'
    && (s.end < |text| ==> text[s.end] != '?')
  }

  /** The query that is added to a match is longer than any match listed after it to its
      left. */
  predicate LongQueries(spans: seq<Span>) {
    forall i, j :: 0 <= i < j < |spans| && spans[j].start < spans[i].start ==>
      Growth(spans[i]) > spans[j].end - spans[j].start
  }

  /** On contents whose matches have no query yet, the signed text is right if and only if
      the patterns list the matches from left to right. */
  lemma UnsignedContents(text: string, spans: seq<Span>, sorted: seq<Span>)
    requires Ascending(sorted, 0, |text|) && multiset(spans) == multiset(sorted)
    requires (forall s :: s in spans ==> Queryless(text, s)) && LongQueries(spans)
    ensures Replaced(text, spans, 0) == Spliced(text, sorted, 0) <==> Ascending(spans, 0, |text|)
  {
    assert Proper(spans);
    SameMembers(spans, sorted);
    forall i, j | 0 <= i < j < |spans| && spans[j].start < spans[i].start
      ensures Telling(text, spans[i], spans[j])
    {
      var s, m := spans[i], spans[j];
      assert s in spans && m in spans;
      Rearranged(spans, sorted, 0, |text|, i, j);
      assert Tells(text, s, m, m.end - m.start);
    }
    InOrderExactly(text, spans, sorted);
  }

  // ---------- all texts ----------

  /** What a text should not have where a match begins. */
  function Otherwise(m: Span): char
    requires m.url != []
  {
    if m.url[0] == 'a' then 'b' else 'a'
  }

  ghost function BlindAt(spans: seq<Span>, k: nat): char {
    if i :| 0 <= i < |spans| && spans[i].start == k && spans[i].url != [] then Otherwise(spans[i]) else 'a'
  }

  /** Without a word about the text: whatever stands around and in the matches, each is
      replaced, if and only if the list goes from left to right. */
  lemma RightForAllTextsExactly(spans: seq<Span>, sorted: seq<Span>, length: nat)
    requires Ascending(sorted, 0, length) && multiset(spans) == multiset(sorted)
    requires Proper(spans) && OvertakenGrow(spans)
    ensures RightForAllTexts(spans, sorted, length) <==> Ascending(spans, 0, length)
  {
    SameMembers(spans, sorted);
    if Ascending(spans, 0, length) {
      SortedIsUnique(spans, sorted, 0, length);
      forall text: string | |text| == length ensures Replaced(text, spans, 0) == Spliced(text, sorted, 0) {
        AscendingSplice(text, sorted);
      }
    } else {
      var text := BlindText(spans, sorted, length);
      InOrderExactly(text, spans, sorted);
    }
  }

  lemma BlindText(spans: seq<Span>, sorted: seq<Span>, length: nat) returns (text: string)
    requires Ascending(sorted, 0, length) && multiset(spans) == multiset(sorted)
    requires Proper(spans) && Proper(sorted) && OvertakenGrow(spans)
    ensures |text| == length && Visible(text, spans)
  {
    text := seq(length, k requires 0 <= k < length => BlindAt(spans, k));
    AscendingApart(sorted, 0, length);
    forall i, j | 0 <= i < j < |spans| && spans[j].start < spans[i].start
      ensures Telling(text, spans[i], spans[j])
    {
      var m := spans[j];
      assert m in spans && spans[i] in spans;
      assert m in multiset(sorted);
      var b :| 0 <= b < |sorted| && sorted[b] == m;
      forall k | 0 <= k < |spans| && spans[k].start == m.start ensures spans[k] == m {
        assert spans[k] in spans;
        if k < j {
          Rearranged(spans, sorted, 0, length, k, j);
        } else if k > j {
          Rearranged(spans, sorted, 0, length, j, k);
        }
      }
      assert BlindAt(spans, m.start) == Otherwise(m);
      assert Tells(text, spans[i], m, 0);
    }
  }
}
