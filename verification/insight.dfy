/** Splitting a stored AI insight into its two display parts: the trend reading and
    the personal note. Bold markers `**` are removed, the text is cut at the note
    marker `Lời nhắn:`, the `Xu hướng:` label is dropped from the trend part, and both
    parts are trimmed. A marker is its word, any run of white space, then a colon. */
module Insight {
  import opened Wrappers
  import opened Text

  // ---- Removing bold markers ---------------------------------------------------------

  /** No two adjacent characters of `s` are both `*`. */
  predicate NoDoubleStar(s: string) {
    forall i :: 0 <= i < |s| - 1 ==> !(s[i] == '*' && s[i + 1] == '*')
  }

  /** The characters of `s` other than `*`, in order. */
  function NonStars(s: string): string {
    if |s| == 0 then [] else (if s[0] == '*' then [] else [s[0]]) + NonStars(s[1..])
  }

  /** The global replacement of `**` by nothing: every `**` found scanning left to
      right is deleted. What is left has no `**`, keeps every other character in
      order, and starts with a star only where `s` did. */
  function RemoveStars(s: string): (r: string)
    ensures NoDoubleStar(r)
    ensures NonStars(r) == NonStars(s)
    ensures |r| > 0 && r[0] == '*' ==> |s| > 0 && s[0] == '*'
    ensures |r| <= |s|
  {
    if |s| >= 2 && s[0] == '*' && s[1] == '*' then
      NonStarsDrop(s);
      RemoveStars(s[2..])
    else if |s| == 0 then []
    else
      var rest := RemoveStars(s[1..]);
      assert s[0] == '*' && |rest| > 0 ==> rest[0] != '*';
      [s[0]] + rest
  }

  lemma NonStarsDrop(s: string)
    requires |s| >= 2 && s[0] == '*' && s[1] == '*'
    ensures NonStars(s) == NonStars(s[2..])
  {
    assert s[1..][1..] == s[2..];
  }

  /** Text without `**` is left alone, so removing bold markers is idempotent. */
  lemma {:induction false} RemoveStarsIdentity(s: string)
    requires NoDoubleStar(s)
    ensures RemoveStars(s) == s
  {
    if |s| > 0 {
      assert NoDoubleStar(s[1..]);
      RemoveStarsIdentity(s[1..]);
      assert s == [s[0]] + s[1..];
    }
  }

  /** A piece of text without `**` has none in any of its slices. */
  lemma SliceNoDoubleStar(s: string, i: int, j: int)
    requires NoDoubleStar(s) && 0 <= i <= j <= |s|
    ensures NoDoubleStar(s[i..j])
  {
    assert forall k :: 0 <= k < j - i ==> s[i..j][k] == s[i + k];
  }

  // ---- Markers -----------------------------------------------------------------------

  const NoteWord := "Lời nhắn"
  const TrendWord := "Xu hướng"

  /** The length of the marker `word\s*:` that `u` starts with, if it starts with one. */
  function MarkerLength(u: string, word: string): (r: Option<nat>)
    ensures r.Some? ==> |word| < r.value <= |u| && word <= u && u[r.value - 1] == ':'
  {
    if word <= u then
      var n := LeadingWhite(u[|word|..]);
      if |word| + n < |u| && u[|word| + n] == ':' then Some(|word| + n + 1) else None
    else None
  }

  /** A marker at the start of `u` is still there, with the same length, in any text
      that `u` begins: the match only looks forward and ends inside `u`. */
  lemma MarkerLengthExtends(u: string, v: string, word: string)
    requires u <= v && MarkerLength(u, word).Some?
    ensures MarkerLength(v, word) == MarkerLength(u, word)
  {
    var w := |word|;
    var n := LeadingWhite(u[w..]);
    assert u[w..] == v[w..][..|u| - w];
    LeadingWhitePrefix(v[w..], |u| - w, n);
  }

  predicate IsTagAt(s: string, word: string, i: nat)
    requires i <= |s|
  {
    MarkerLength(s[i..], word).Some?
  }

  /** The end of the marker that starts at `i`. */
  function TagEnd(s: string, word: string, i: nat): (e: nat)
    requires i <= |s| && IsTagAt(s, word, i)
    ensures i + |word| < e <= |s| && s[e - 1] == ':'
  {
    i + MarkerLength(s[i..], word).value
  }

  /** The first position at or after `from` where a marker starts (`RegExp.exec`). */
  function FindTag(s: string, word: string, from: nat): (r: Option<nat>)
    requires from <= |s|
    ensures r.Some? ==> from <= r.value <= |s| && IsTagAt(s, word, r.value)
    ensures r.Some? ==> forall j :: from <= j < r.value ==> !IsTagAt(s, word, j)
    ensures r.None? ==> forall j :: from <= j <= |s| ==> !IsTagAt(s, word, j)
    decreases |s| - from
  {
    if IsTagAt(s, word, from) then Some(from)
    else if from == |s| then None
    else FindTag(s, word, from + 1)
  }

  /** A marker inside a slice is a marker of the whole text at the same place. */
  lemma TagInSlice(s: string, word: string, lo: nat, hi: nat, j: nat)
    requires lo <= hi <= |s| && j <= hi - lo && IsTagAt(s[lo..hi], word, j)
    ensures IsTagAt(s, word, lo + j)
  {
    assert s[lo..hi][j..] == s[lo + j..hi];
    MarkerLengthExtends(s[lo + j..hi], s[lo + j..], word);
  }

  /** Leading white space of a prefix, when the prefix does not end in white space,
      is the leading white space of the whole. */
  lemma LeadingWhitePrefix(s: string, k: nat, n: nat)
    requires k <= |s| && n == LeadingWhite(s[..k]) && n < k
    ensures LeadingWhite(s) == n
  {
    assert forall i :: 0 <= i < n ==> s[..k][i] == s[i];
    assert s[..k][n] == s[n];
  }

  /** `s.replace(/word\s*:/, '')`: only the first marker is removed. */
  function RemoveFirstTag(s: string, word: string): (r: string)
    ensures FindTag(s, word, 0).None? ==> r == s
    ensures FindTag(s, word, 0).Some? ==>
      var i := FindTag(s, word, 0).value;
      r == s[..i] + s[TagEnd(s, word, i)..]
  {
    match FindTag(s, word, 0)
    case None => s
    case Some(i) => s[..i] + s[TagEnd(s, word, i)..]
  }

  // ---- The two parts -----------------------------------------------------------------

  datatype Sections = Sections(trend: string, note: string)

  /** A part as displayed: no white space at either end. */
  predicate Trimmed(s: string) {
    |s| > 0 ==> !IsWhite(s[0]) && !IsWhite(s[|s| - 1])
  }

  /** `insightSections` as written: without a note marker the whole cleaned text is the
      trend; with one, the trend is the text before the first marker minus its first
      `Xu hướng:` label and the note is the text between the first and second markers. */
  function SplitInsightAsWritten(insight: Option<string>): (r: Sections)
    ensures Trimmed(r.trend) && Trimmed(r.note) && NoDoubleStar(r.note)
    ensures insight.None? ==> r == Sections("", "")
    ensures var cleaned := RemoveStars(insight.GetOr(""));
      FindTag(cleaned, NoteWord, 0).None? ==> r == Sections(Trim(cleaned), "")
  {
    var cleaned := RemoveStars(insight.GetOr(""));
    match FindTag(cleaned, NoteWord, 0)
    case None => Sections(Trim(cleaned), "")
    case Some(i) =>
      var e := TagEnd(cleaned, NoteWord, i);
      var stop := FindTag(cleaned, NoteWord, e).GetOr(|cleaned|);
      NoteSlice(cleaned, e, stop);
      Sections(Trim(RemoveFirstTag(cleaned[..i], TrendWord)), Trim(cleaned[e..stop]))
  }

  lemma NoteSlice(cleaned: string, e: nat, stop: nat)
    requires NoDoubleStar(cleaned) && e <= stop <= |cleaned|
    ensures NoDoubleStar(Trim(cleaned[e..stop]))
  {
    var t := cleaned[e..stop];
    SliceNoDoubleStar(cleaned, e, stop);
    SliceNoDoubleStar(t, LeadingWhite(t), LeadingWhite(t) + |Trim(t)|);
  }

  /** Removing the label can join two single stars: `*Xu hướng:*a Lời nhắn:b` has no
      `**`, yet its trend part as written is `**a`. */
  lemma TrendAsWrittenJoinsStars()
    ensures NoDoubleStar(StarExample)
    ensures SplitInsightAsWritten(Some(StarExample)).trend == "**a"
  {
    var s := StarExample;
    ExampleHasNoDoubleStar();
    RemoveStarsIdentity(s);
    ExampleNoteMarker();
    assert s[..13] == ExampleHead;
    ExampleNoSecondMarker();
    ExampleTrendLabel();
    ExampleTrim();
  }

  lemma ExampleNoSecondMarker()
    ensures FindTag(StarExample, NoteWord, 22).None?
  {
    var s := StarExample;
    assert |s| == 23;
    assert !IsTagAt(s, NoteWord, 22) && !IsTagAt(s, NoteWord, 23);
  }

  lemma ExampleTrim()
    ensures Trim("**a ") == "**a"
  {
    assert LeadingWhite("**a ") == 0;
    assert TrailingWhite("**a ") == 1;
  }

  const ExampleHead := "*" + TrendWord + ":*a "
  const StarExample := ExampleHead + NoteWord + ":b"

  lemma ExampleHasNoDoubleStar()
    ensures NoDoubleStar(StarExample)
  {
    var x, y := TrendWord + ":", "a " + NoteWord + ":b";
    assert StarExample == "*" + x + "*" + y;
    StarFree(x);
    StarFree(y);
    JoinNoDoubleStar("*", x);
    JoinNoDoubleStar("*" + x, "*");
    JoinNoDoubleStar("*" + x + "*", y);
  }

  lemma StarFree(x: string)
    requires '*' !in x
    ensures NoDoubleStar(x)
  {
    assert forall i :: 0 <= i < |x| ==> x[i] in x;
  }

  /** Two pieces without `**` do not form one when joined, unless the first ends and
      the second starts with a star. */
  lemma JoinNoDoubleStar(a: string, b: string)
    requires NoDoubleStar(a) && NoDoubleStar(b)
    requires |a| == 0 || |b| == 0 || a[|a| - 1] != '*' || b[0] != '*'
    ensures NoDoubleStar(a + b)
  {
    var c := a + b;
    forall i | 0 <= i < |c| - 1
      ensures !(c[i] == '*' && c[i + 1] == '*')
    {
      if i + 1 < |a| {
        assert c[i] == a[i] && c[i + 1] == a[i + 1];
      } else if i >= |a| {
        assert c[i] == b[i - |a|] && c[i + 1] == b[i + 1 - |a|];
      }
    }
  }

  lemma ExampleNoteMarker()
    ensures FindTag(StarExample, NoteWord, 0) == Some(13)
    ensures TagEnd(StarExample, NoteWord, 13) == 22
  {
    var s, h := StarExample, ExampleHead;
    assert |h| == 13 && 'L' !in h;
    forall j | 0 <= j < 13
      ensures !IsTagAt(s, NoteWord, j)
    {
      assert s[j] == h[j] && h[j] in h;
      assert s[j..][0] == s[j] != NoteWord[0];
    }
    assert s[13..] == NoteWord + ":b";
    assert NoteWord <= s[13..];
    assert s[13..][8..] == ":b";
    assert MarkerLength(s[13..], NoteWord) == Some(9);
    assert IsTagAt(s, NoteWord, 13);
    var r := FindTag(s, NoteWord, 0);
    assert r.Some? && IsTagAt(s, NoteWord, r.value);
  }

  lemma ExampleTrendLabel()
    ensures FindTag(ExampleHead, TrendWord, 0) == Some(1)
    ensures TagEnd(ExampleHead, TrendWord, 1) == 10
    ensures RemoveFirstTag(ExampleHead, TrendWord) == "**a "
  {
    var h := ExampleHead;
    assert h[1..] == TrendWord + ":*a ";
    assert TrendWord <= h[1..];
    assert h[1..][8..] == ":*a ";
    assert MarkerLength(h[1..], TrendWord) == Some(9);
    assert h[0..][0] == '*' != TrendWord[0];
    assert h[..1] + h[10..] == "**a ";
  }

  /** Text lacking a word's first letter has no marker of that word. */
  lemma NoMarkerWithoutInitial(s: string, word: string, from: nat)
    requires |word| > 0 && word[0] !in s && from <= |s|
    ensures FindTag(s, word, from).None?
  {
    forall j | from <= j <= |s|
      ensures !IsTagAt(s, word, j)
    {
      if j + |word| <= |s| {
        assert s[j..j + |word|][0] == s[j];
      }
    }
  }

  /** `insightSections` with bold markers removed again after the label is dropped, so
      that neither part can show `**`. */
  function SplitInsight(insight: Option<string>): (r: Sections)
    ensures Trimmed(r.trend) && Trimmed(r.note)
    ensures NoDoubleStar(r.trend) && NoDoubleStar(r.note)
    ensures insight.None? ==> r == Sections("", "")
    ensures r.note == SplitInsightAsWritten(insight).note
    ensures var cleaned := RemoveStars(insight.GetOr(""));
      FindTag(cleaned, NoteWord, 0).None? ==> r == Sections(Trim(cleaned), "")
  {
    var cleaned := RemoveStars(insight.GetOr(""));
    match FindTag(cleaned, NoteWord, 0)
    case None =>
      TrimNoDoubleStar(cleaned);
      Sections(Trim(cleaned), "")
    case Some(i) =>
      var e := TagEnd(cleaned, NoteWord, i);
      var stop := FindTag(cleaned, NoteWord, e).GetOr(|cleaned|);
      var trend := RemoveStars(RemoveFirstTag(cleaned[..i], TrendWord));
      NoteSlice(cleaned, e, stop);
      TrimNoDoubleStar(trend);
      Sections(Trim(trend), Trim(cleaned[e..stop]))
  }

  lemma TrimNoDoubleStar(s: string)
    requires NoDoubleStar(s)
    ensures NoDoubleStar(Trim(s))
  {
    SliceNoDoubleStar(s, LeadingWhite(s), LeadingWhite(s) + |Trim(s)|);
  }

  /** With a note marker, `i` being the first: the trend is the text before it less its
      first label, and the note is the text from its colon up to the next marker or the
      end, with no marker in between. */
  lemma MarkerSplit(insight: Option<string>, i: nat)
    requires FindTag(RemoveStars(insight.GetOr("")), NoteWord, 0) == Some(i)
    ensures var cleaned := RemoveStars(insight.GetOr(""));
      && i <= |cleaned| && IsTagAt(cleaned, NoteWord, i)
      && (forall j :: 0 <= j < i ==> !IsTagAt(cleaned, NoteWord, j))
      && SplitInsightAsWritten(insight).trend == Trim(RemoveFirstTag(cleaned[..i], TrendWord))
    ensures var cleaned := RemoveStars(insight.GetOr(""));
      var e := TagEnd(cleaned, NoteWord, i);
      exists stop :: (e <= stop <= |cleaned|
        && (stop == |cleaned| || IsTagAt(cleaned, NoteWord, stop))
        && (forall k :: e <= k < stop ==> !IsTagAt(cleaned, NoteWord, k))
        && SplitInsightAsWritten(insight).note == Trim(cleaned[e..stop]))
  {
    var cleaned := RemoveStars(insight.GetOr(""));
    var e := TagEnd(cleaned, NoteWord, i);
    var stop := FindTag(cleaned, NoteWord, e).GetOr(|cleaned|);
    assert SplitInsightAsWritten(insight).note == Trim(cleaned[e..stop]);
  }

  /** Where the written split shows no `**`, the corrected one agrees with it. */
  lemma SplitInsightAgrees(insight: Option<string>)
    ensures NoDoubleStar(SplitInsightAsWritten(insight).trend) ==>
      SplitInsight(insight) == SplitInsightAsWritten(insight)
  {
    var cleaned := RemoveStars(insight.GetOr(""));
    match FindTag(cleaned, NoteWord, 0)
    case None =>
    case Some(i) =>
      var t := RemoveFirstTag(cleaned[..i], TrendWord);
      if NoDoubleStar(Trim(t)) {
        PaddingNoDoubleStar(t);
        RemoveStarsIdentity(t);
      }
  }

  /** White space around a piece without `**` cannot form one: stars are not white. */
  lemma PaddingNoDoubleStar(t: string)
    requires NoDoubleStar(Trim(t))
    ensures NoDoubleStar(t)
  {
    var lo := LeadingWhite(t);
    var r := Trim(t);
    assert !IsWhite('*');
    forall k | 0 <= k < |t| - 1
      ensures !(t[k] == '*' && t[k + 1] == '*')
    {
      if lo <= k && k + 1 < lo + |r| {
        assert r[k - lo] == t[k] && r[k + 1 - lo] == t[k + 1];
      }
    }
  }

  /** The note never contains a note marker: anything from a second marker on is
      dropped, and the first marker and everything before it belong to the trend. */
  lemma NoteHasNoMarker(insight: Option<string>)
    ensures var note := SplitInsight(insight).note;
      forall j :: 0 <= j <= |note| ==> !IsTagAt(note, NoteWord, j)
  {
    var cleaned := RemoveStars(insight.GetOr(""));
    match FindTag(cleaned, NoteWord, 0)
    case None =>
    case Some(i) =>
      var e := TagEnd(cleaned, NoteWord, i);
      NoMarkerUpToNext(cleaned, e, FindTag(cleaned, NoteWord, e).GetOr(|cleaned|));
  }

  /** The trimmed text between `e` and the next marker holds no marker. */
  lemma NoMarkerUpToNext(s: string, e: nat, stop: nat)
    requires e <= |s| && stop == FindTag(s, NoteWord, e).GetOr(|s|)
    ensures var note := Trim(s[e..stop]);
      forall j :: 0 <= j <= |note| ==> !IsTagAt(note, NoteWord, j)
  {
    NoTagBeforeNext(s, e, stop);
    NoTagInTrimmed(s, NoteWord, e, stop);
  }

  /** Trimming a stretch of `s` in which no marker starts leaves no marker. */
  lemma NoTagInTrimmed(s: string, word: string, e: nat, stop: nat)
    requires e <= stop <= |s|
    requires forall k :: e <= k < stop ==> !IsTagAt(s, word, k)
    ensures var note := Trim(s[e..stop]);
      forall j :: 0 <= j <= |note| ==> !IsTagAt(note, word, j)
  {
    var part := s[e..stop];
    NoTagInPiece(s, word, e, stop, LeadingWhite(part), Trim(part));
  }

  /** A piece of `s[e..stop]` holds no marker when no marker of `s` starts in
      `[e, stop)`. */
  lemma NoTagInPiece(s: string, word: string, e: nat, stop: nat, lo: nat, note: string)
    requires e <= stop <= |s| && lo + |note| <= stop - e
    requires note == s[e..stop][lo..lo + |note|]
    requires forall k :: e <= k < stop ==> !IsTagAt(s, word, k)
    ensures forall j :: 0 <= j <= |note| ==> !IsTagAt(note, word, j)
  {
    forall j | 0 <= j <= |note|
      ensures !IsTagAt(note, word, j)
    {
      if IsTagAt(note, word, j) {
        var k := PieceTag(s, word, e, stop, lo, note, j);
      }
    }
  }

  /** A marker in a piece `note` of the slice `s[e..stop]` is a marker of `s` in
      `[e, stop)`. */
  lemma PieceTag(s: string, word: string, e: nat, stop: nat, lo: nat, note: string, j: nat)
    returns (k: nat)
    requires e <= stop <= |s| && lo + |note| <= stop - e
    requires note == s[e..stop][lo..lo + |note|]
    requires j <= |note| && IsTagAt(note, word, j)
    ensures e <= k < stop && IsTagAt(s, word, k)
  {
    TagInSlice(s[e..stop], word, lo, lo + |note|, j);
    k := TagBeforeStop(s, word, e, stop, lo + j);
  }

  /** A marker of the slice `s[e..stop]` is a marker of `s` that starts before `stop`. */
  lemma TagBeforeStop(s: string, word: string, e: nat, stop: nat, i: nat) returns (k: nat)
    requires e <= stop <= |s| && i <= stop - e && IsTagAt(s[e..stop], word, i)
    ensures e <= k < stop && IsTagAt(s, word, k)
  {
    var m := TagEnd(s[e..stop], word, i);
    TagInSlice(s, word, e, stop, i);
    k := e + i;
  }

  /** No marker starts between `e` and the next marker after it. */
  lemma NoTagBeforeNext(s: string, e: nat, stop: nat)
    requires e <= |s| && stop == FindTag(s, NoteWord, e).GetOr(|s|)
    ensures forall k :: e <= k < stop ==> !IsTagAt(s, NoteWord, k)
  {
  }

  // ---- Display -----------------------------------------------------------------------

  const NotePlaceholder := "Chưa có lời nhắn riêng trong phản hồi."

  /** The trend tab shows the trend part, or the raw insight when that part is empty. */
  function TrendDisplay(s: Sections, insight: Option<string>): (r: string)
    ensures s.trend != [] ==> r == s.trend
    ensures s.trend == [] ==> r == insight.GetOr("")
  {
    if s.trend != [] then s.trend else insight.GetOr("")
  }

  /** The note tab shows the note part, or a fixed placeholder when that part is empty;
      it is never blank. */
  function NoteDisplay(s: Sections): (r: string)
    ensures r != []
    ensures s.note != [] ==> r == s.note
  {
    if s.note != [] then s.note else NotePlaceholder
  }
}
