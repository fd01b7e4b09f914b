/**
 * The citation annotation that a scholar export leaves in a record's `note` field,
 * recognised the way Python's `re.search` does for the single pattern
 *
 *     (\d+)\scites:\s.+?scholar\?cites\=(\d+)
 *
 * Group 1 is the citation count, group 2 the scholar cluster identifier.
 */
module NotePattern {
  import opened Wrappers

  /** `\d`, restricted to ASCII digits. */
  predicate IsDigit(c: char) { '0' <= c <= '9' }

  /** `\s` on a str pattern: the characters Python's `str.isspace` accepts. */
  predicate IsSpace(c: char)
  {
    || '\t' <= c <= '\r'
    || '\U{1c}' <= c <= ' '
    || c == '\U{85}' || c == '\U{a0}' || c == '\U{1680}'
    || '\U{2000}' <= c <= '\U{200a}'
    || c == '\U{2028}' || c == '\U{2029}' || c == '\U{202f}' || c == '\U{205f}' || c == '\U{3000}'
  }

  /** The literal between group 1's trailing blank and the lazy run. */
  const Marker: string := "cites:"

  /** The literal in front of group 2. */
  const Anchor: string := "scholar?cites="

  predicate DigitsIn(note: string, lo: nat, hi: nat)
    requires lo <= hi <= |note|
  {
    forall k :: lo <= k < hi ==> IsDigit(note[k])
  }

  /** `.` matches every character except a newline. */
  predicate NoNewlineIn(note: string, lo: nat, hi: nat)
    requires lo <= hi <= |note|
  {
    forall k :: lo <= k < hi ==> note[k] != '\n'
  }

  /** The anchor literal starts at `a` and a digit follows it. */
  predicate AnchorWithDigit(note: string, a: nat)
  {
    a + |Anchor| < |note| && note[a..a + |Anchor|] == Anchor && IsDigit(note[a + |Anchor|])
  }

  /**
   * Where one match of the pattern lies: group 1 is `note[start..digitsEnd]`, the lazy run
   * is `note[digitsEnd + 8..anchor]`, group 2 is `note[anchor + |Anchor|..end]`.
   */
  datatype Span = Span(start: nat, digitsEnd: nat, anchor: nat, end: nat)

  /** The pattern matches `note` at the places `m` names. */
  predicate IsMatch(note: string, m: Span)
  {
    && m.start < m.digitsEnd
    && m.digitsEnd + 8 < m.anchor
    && m.anchor + |Anchor| < m.end <= |note|
    && DigitsIn(note, m.start, m.digitsEnd)
    && IsSpace(note[m.digitsEnd])
    && note[m.digitsEnd + 1..m.digitsEnd + 7] == Marker
    && IsSpace(note[m.digitsEnd + 7])
    && NoNewlineIn(note, m.digitsEnd + 8, m.anchor)
    && note[m.anchor..m.anchor + |Anchor|] == Anchor
    && DigitsIn(note, m.anchor + |Anchor|, m.end)
  }

  /**
   * The backtracking order of the regex engine: an earlier start wins; at the same start
   * the shorter lazy run wins; with the same run, the longer greedy group 2 wins.
   */
  predicate PreferredOver(m: Span, o: Span)
  {
    || m.start < o.start
    || (m.start == o.start && m.anchor < o.anchor)
    || (m.start == o.start && m.anchor == o.anchor && o.end <= m.end)
  }

  /** The match `re.search` reports. */
  ghost predicate FirstMatch(note: string, m: Span)
  {
    IsMatch(note, m) && forall o :: IsMatch(note, o) ==> PreferredOver(m, o)
  }

  /** The end of the greedy run of digits that starts at `i`. */
  function DigitRunEnd(note: string, i: nat): (e: nat)
    requires i <= |note|
    ensures i <= e <= |note|
    ensures DigitsIn(note, i, e)
    ensures e == |note| || !IsDigit(note[e])
    decreases |note| - i
  {
    if i < |note| && IsDigit(note[i]) then DigitRunEnd(note, i + 1) else i
  }

  /**
   * The lazy `.+?` run that began at `p` has reached `j`: the first anchor at or after `j`
   * that the run can reach without crossing a newline.
   */
  function FindAnchor(note: string, p: nat, j: nat): (r: Option<nat>)
    requires p < j <= |note|
    requires NoNewlineIn(note, p, j)
    ensures r.Some? ==> j <= r.value <= |note| && NoNewlineIn(note, p, r.value) && AnchorWithDigit(note, r.value)
    ensures r.Some? ==> forall a :: j <= a < r.value ==> !AnchorWithDigit(note, a)
    ensures r.None? ==> forall a :: j <= a <= |note| && NoNewlineIn(note, p, a) ==> !AnchorWithDigit(note, a)
    decreases |note| - j
  {
    if AnchorWithDigit(note, j) then Some(j)
    else if j < |note| && note[j] != '\n' then FindAnchor(note, p, j + 1)
    else None
  }

  /** What the pattern demands between group 1 and the lazy run, group 1 ending at `e1`. */
  predicate MarkerAfter(note: string, e1: nat)
  {
    && e1 + 8 < |note|
    && IsSpace(note[e1])
    && note[e1 + 1..e1 + 7] == Marker
    && IsSpace(note[e1 + 7])
    && note[e1 + 8] != '\n'
  }

  /** Group 1 of any match is the whole greedy digit run at its start. */
  lemma DigitsEndForced(note: string, m: Span)
    requires IsMatch(note, m)
    ensures m.digitsEnd == DigitRunEnd(note, m.start)
  {
    var e1 := DigitRunEnd(note, m.start);
    assert !IsDigit(note[m.digitsEnd]);
    assert e1 < |note| ==> !IsDigit(note[e1]);
  }

  /** A match starting at `o.start` makes the regex engine find an anchor no later than `o`'s. */
  lemma AnchorNoLater(note: string, o: Span)
    requires IsMatch(note, o)
    requires o.digitsEnd == DigitRunEnd(note, o.start)
    ensures MarkerAfter(note, o.digitsEnd)
    ensures FindAnchor(note, o.digitsEnd + 8, o.digitsEnd + 9).Some?
    ensures FindAnchor(note, o.digitsEnd + 8, o.digitsEnd + 9).value <= o.anchor
  {
    var p := o.digitsEnd + 8;
    assert note[p] != '\n';
    assert AnchorWithDigit(note, o.anchor);
  }

  /** Group 2 of any match is at most the greedy digit run after its anchor. */
  lemma EndNoLater(note: string, o: Span)
    requires IsMatch(note, o)
    ensures o.end <= DigitRunEnd(note, o.anchor + |Anchor|)
  {
  }

  /** Everything a match forces on the regex engine's choices at its start. */
  lemma ChoicesAtStart(note: string, o: Span)
    requires IsMatch(note, o)
    ensures o.start < DigitRunEnd(note, o.start) == o.digitsEnd
    ensures MarkerAfter(note, o.digitsEnd)
    ensures FindAnchor(note, o.digitsEnd + 8, o.digitsEnd + 9).Some?
    ensures FindAnchor(note, o.digitsEnd + 8, o.digitsEnd + 9).value <= o.anchor
    ensures o.end <= DigitRunEnd(note, o.anchor + |Anchor|)
  {
    DigitsEndForced(note, o);
    AnchorNoLater(note, o);
    EndNoLater(note, o);
  }

  /** Without a digit run followed by the marker at `s`, no match starts at `s`. */
  lemma NoMatchWithoutMarker(note: string, s: nat)
    requires s < |note|
    requires s == DigitRunEnd(note, s) || !MarkerAfter(note, DigitRunEnd(note, s))
    ensures forall o :: IsMatch(note, o) ==> o.start != s
  {
    forall o | IsMatch(note, o) ensures o.start != s {
      DigitsEndForced(note, o);
      AnchorNoLater(note, o);
    }
  }

  /** When the lazy run after the marker reaches no anchor, no match starts at `s`. */
  lemma NoMatchWithoutAnchor(note: string, s: nat)
    requires s < |note| && s < DigitRunEnd(note, s) && MarkerAfter(note, DigitRunEnd(note, s))
    requires FindAnchor(note, DigitRunEnd(note, s) + 8, DigitRunEnd(note, s) + 9).None?
    ensures forall o :: IsMatch(note, o) ==> o.start != s
  {
    forall o | IsMatch(note, o) ensures o.start != s {
      DigitsEndForced(note, o);
      AnchorNoLater(note, o);
    }
  }

  /** Where the regex engine's choices at `s` succeed, they give the preferred match at `s`. */
  lemma BestMatchAt(note: string, s: nat, j: nat)
    requires s < |note| && s < DigitRunEnd(note, s)
    requires MarkerAfter(note, DigitRunEnd(note, s))
    requires FindAnchor(note, DigitRunEnd(note, s) + 8, DigitRunEnd(note, s) + 9) == Some(j)
    ensures var m := Span(s, DigitRunEnd(note, s), j, DigitRunEnd(note, j + |Anchor|));
      && IsMatch(note, m)
      && forall o :: IsMatch(note, o) && o.start == s ==> PreferredOver(m, o)
  {
    var m := Span(s, DigitRunEnd(note, s), j, DigitRunEnd(note, j + |Anchor|));
    assert IsMatch(note, m);
    forall o | IsMatch(note, o) && o.start == s ensures PreferredOver(m, o) {
      ChoicesAtStart(note, o);
    }
  }

  /** The preferred match that starts exactly at `s`. */
  function MatchAt(note: string, s: nat): (r: Option<Span>)
    requires s < |note|
    ensures r.Some? ==> IsMatch(note, r.value) && r.value.start == s
    ensures r.Some? ==> forall o :: IsMatch(note, o) && o.start == s ==> PreferredOver(r.value, o)
    ensures r.None? ==> forall o :: IsMatch(note, o) ==> o.start != s
  {
    var e1 := DigitRunEnd(note, s);
    if e1 == s || !MarkerAfter(note, e1) then
      NoMatchWithoutMarker(note, s);
      None
    else
      match FindAnchor(note, e1 + 8, e1 + 9)
      case None =>
        NoMatchWithoutAnchor(note, s);
        None
      case Some(j) =>
        BestMatchAt(note, s, j);
        Some(Span(s, e1, j, DigitRunEnd(note, j + |Anchor|)))
  }

  /** The preferred match among those starting at `s` or later. */
  function SearchFrom(note: string, s: nat): (r: Option<Span>)
    requires s <= |note|
    ensures r.Some? ==> IsMatch(note, r.value) && s <= r.value.start
    ensures r.Some? ==> forall o :: IsMatch(note, o) && s <= o.start ==> PreferredOver(r.value, o)
    ensures r.None? ==> forall o :: IsMatch(note, o) ==> o.start < s
    decreases |note| - s
  {
    if s == |note| then None
    else
      match MatchAt(note, s)
      case Some(m) => Some(m)
      case None => SearchFrom(note, s + 1)
  }

  /** Searching from the start of the note finds the match the regex engine reports, if any. */
  lemma SearchFromStart(note: string)
    ensures SearchFrom(note, 0).None? ==> forall m :: !IsMatch(note, m)
    ensures SearchFrom(note, 0).Some? ==> FirstMatch(note, SearchFrom(note, 0).value)
  {
  }

  /** A non-empty run of digits, as `\d+` captures. */
  predicate IsNumeral(s: string)
  {
    |s| > 0 && forall k :: 0 <= k < |s| ==> IsDigit(s[k])
  }

  /** Both captured groups of a match are numerals. */
  lemma GroupsAreNumerals(note: string, m: Span)
    requires IsMatch(note, m)
    ensures IsNumeral(note[m.start..m.digitsEnd])
    ensures IsNumeral(note[m.anchor + |Anchor|..m.end])
  {
    var g1, g2 := note[m.start..m.digitsEnd], note[m.anchor + |Anchor|..m.end];
    forall k | 0 <= k < |g1| ensures IsDigit(g1[k]) { assert g1[k] == note[m.start + k]; }
    forall k | 0 <= k < |g2| ensures IsDigit(g2[k]) { assert g2[k] == note[m.anchor + |Anchor| + k]; }
  }

  /**
   * `re.search` on a note: `Some((citedby, scholarid))`, the two captured groups of the
   * match the engine reports, or `None` when the pattern occurs nowhere.
   */
  function CitationGroups(note: string): (r: Option<(string, string)>)
    ensures r.None? ==> forall m :: !IsMatch(note, m)
    ensures r.Some? ==> exists m :: FirstMatch(note, m)
                                    && r.value.0 == note[m.start..m.digitsEnd]
                                    && r.value.1 == note[m.anchor + |Anchor|..m.end]
    ensures r.Some? ==> IsNumeral(r.value.0) && IsNumeral(r.value.1)
  {
    SearchFromStart(note);
    match SearchFrom(note, 0)
    case None => None
    case Some(m) =>
      GroupsAreNumerals(note, m);
      Some((note[m.start..m.digitsEnd], note[m.anchor + |Anchor|..m.end]))
  }

  /** The match the engine reports is unique, so "the" groups are well defined. */
  lemma FirstMatchUnique(note: string, m: Span, m': Span)
    requires FirstMatch(note, m) && FirstMatch(note, m')
    ensures m == m'
  {
    assert PreferredOver(m, m') && PreferredOver(m', m);
    DigitsEndForced(note, m);
    DigitsEndForced(note, m');
  }

  /** Whatever match the regex engine reports, its groups are what CitationGroups returns. */
  lemma GroupsOfFirstMatch(note: string, m: Span, count: string, id: string)
    requires FirstMatch(note, m)
    requires count == note[m.start..m.digitsEnd] && id == note[m.anchor + |Anchor|..m.end]
    ensures CitationGroups(note) == Some((count, id))
  {
    SearchFromStart(note);
    var r := SearchFrom(note, 0);
    assert r.Some? by {
      assert IsMatch(note, m);
    }
    FirstMatchUnique(note, m, r.value);
  }

  /** The shape in which a scholar export writes its citation note. */
  function ScholarNote(count: string, text: string, id: string): string
  {
    count + " cites: " + text + Anchor + id
  }

  /** Where each part of a scholar note lies. */
  lemma ScholarNoteParts(count: string, text: string, id: string)
    ensures var note, c := ScholarNote(count, text, id), |count|;
      && |note| == c + 8 + |text| + |Anchor| + |id|
      && (forall k :: 0 <= k < c ==> note[k] == count[k])
      && note[c..c + 8] == " cites: "
      && (forall k :: c + 8 <= k < c + 8 + |text| ==> note[k] == text[k - c - 8])
      && note[c + 8 + |text|..c + 8 + |text| + |Anchor|] == Anchor
      && (forall k :: c + 8 + |text| + |Anchor| <= k < |note| ==> note[k] == id[k - c - 8 - |text| - |Anchor|])
  {
    var note, c := ScholarNote(count, text, id), |count|;
    assert note == count + " cites: " + text + Anchor + id;
    assert note[c..c + 8] == " cites: ";
    assert note[c + 8 + |text|..c + 8 + |text| + |Anchor|] == Anchor;
  }

  /** The count and the identifier can be cut back out of a scholar note. */
  lemma ScholarNoteSlices(count: string, text: string, id: string)
    ensures var note, a := ScholarNote(count, text, id), |count| + 8 + |text|;
      note[0..|count|] == count && note[a + |Anchor|..|note|] == id
  {
    var note, a := ScholarNote(count, text, id), |count| + 8 + |text|;
    ScholarNoteParts(count, text, id);
    assert forall k :: 0 <= k < |count| ==> note[0..|count|][k] == count[k];
    assert forall k :: 0 <= k < |id| ==> note[a + |Anchor|..|note|][k] == id[k];
  }

  /** The parts of a well-formed scholar note form a match of the pattern. */
  lemma ScholarNoteMatches(count: string, text: string, id: string)
    requires IsNumeral(count)
    requires |text| > 0 && '\n' !in text
    requires IsNumeral(id)
    ensures IsMatch(ScholarNote(count, text, id), Span(0, |count|, |count| + 8 + |text|, |ScholarNote(count, text, id)|))
  {
    var note, c := ScholarNote(count, text, id), |count|;
    var a := c + 8 + |text|;
    ScholarNoteParts(count, text, id);
    assert note[c + 1..c + 7] == note[c..c + 8][1..7];
    assert note[c] == note[c..c + 8][0] && note[c + 7] == note[c..c + 8][7];
    assert NoNewlineIn(note, c + 8, a) by {
      forall k | c + 8 <= k < a ensures note[k] != '\n' { assert text[k - c - 8] in text; }
    }
  }

  /** Before the anchor's question mark, a scholar note whose free text has none holds none. */
  lemma ScholarNoteQuestionMark(count: string, text: string, id: string)
    requires forall k :: 0 <= k < |count| ==> IsDigit(count[k])
    requires '?' !in text
    ensures var note := ScholarNote(count, text, id);
      forall k :: 0 <= k < |count| + 8 + |text| + 7 ==> note[k] != '?'
  {
    var note, c := ScholarNote(count, text, id), |count|;
    var a := c + 8 + |text|;
    ScholarNoteParts(count, text, id);
    forall k | 0 <= k < a + 7 ensures note[k] != '?' {
      if k < c {
        assert note[k] == count[k];
      } else if k < c + 8 {
        assert note[k] == note[c..c + 8][k - c];
      } else if k < a {
        assert text[k - c - 8] in text;
      } else {
        assert note[k] == note[a..a + |Anchor|][k - a];
      }
    }
  }

  /** The match the regex engine reports on a well-formed scholar note spans all of it. */
  lemma ScholarNoteFirstMatch(count: string, text: string, id: string)
    requires IsNumeral(count)
    requires |text| > 0 && '\n' !in text && '?' !in text
    requires IsNumeral(id)
    ensures FirstMatch(ScholarNote(count, text, id),
                       Span(0, |count|, |count| + 8 + |text|, |ScholarNote(count, text, id)|))
  {
    var note := ScholarNote(count, text, id);
    var m := Span(0, |count|, |count| + 8 + |text|, |note|);
    ScholarNoteMatches(count, text, id);
    ScholarNoteQuestionMark(count, text, id);
    forall o | IsMatch(note, o) ensures PreferredOver(m, o) {
      assert note[o.anchor + 7] == note[o.anchor..o.anchor + |Anchor|][7];
    }
  }

  /**
   * A note of the shape a scholar export writes yields its count and its cluster identifier,
   * provided its free text holds no newline and no question mark.
   */
  lemma ScholarNoteGroups(count: string, text: string, id: string)
    requires IsNumeral(count)
    requires |text| > 0 && '\n' !in text && '?' !in text
    requires IsNumeral(id)
    ensures CitationGroups(ScholarNote(count, text, id)) == Some((count, id))
  {
    var note := ScholarNote(count, text, id);
    var m := Span(0, |count|, |count| + 8 + |text|, |note|);
    ScholarNoteFirstMatch(count, text, id);
    ScholarNoteSlices(count, text, id);
    GroupsOfFirstMatch(note, m, count, id);
  }

  /** The note of a paper that a scholar search says is cited 53 times. */
  lemma ScholarNoteExample()
    ensures CitationGroups("53 cites: " + "Cited by 53 - Related " + "articles https://scholar.google.com/"
                           + "scholar?cites=" + "9184732049183")
            == Some(("53", "9184732049183"))
  {
    var t1, t2 := "Cited by 53 - Related ", "articles https://scholar.google.com/";
    assert '?' !in t1 + t2 && '\n' !in t1 + t2 by {
      assert '?' !in t1 && '\n' !in t1;
      assert '?' !in t2 && '\n' !in t2;
    }
    assert ScholarNote("53", t1 + t2, "9184732049183")
        == "53 cites: " + t1 + t2 + "scholar?cites=" + "9184732049183" by {
      assert "53" + " cites: " == "53 cites: ";
      assert "53 cites: " + (t1 + t2) == "53 cites: " + t1 + t2;
    }
    ScholarNoteGroups("53", t1 + t2, "9184732049183");
  }

  /** A free-text note without the citation pattern. */
  lemma PlainNoteExample()
    ensures CitationGroups("See also: related work") == None
  {
  }
}
