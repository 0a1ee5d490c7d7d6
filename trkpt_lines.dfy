/**
  The last step of fix.js (line 43) before the file is written: every opening or closing
  trkpt tag in the serialised GPX text is put on a line of its own, by a global replace of the
  regular expression TRKPT_TAG (written out below) with a newline, the match and a newline.

  TRKPT_TAG is: '<', then '/' any number of times, then "trkpt", then any run of characters
  other than '>', then '>'.
*/
module TrkptLines {
  import opened Options

  /** `t`, as a whole, matches TRKPT_TAG: a '<', any number of '/', the letters "trkpt",
      any characters other than '>', and a closing '>'. The "trkpt" starts at index k. */
  ghost predicate IsTrkptTag(t: string): (b: bool)
    ensures b ==> forall j :: 0 <= j < |t| && t[j] == '>' ==> j == |t| - 1
  {
    && 7 <= |t|
    && t[0] == '<'
    && t[|t| - 1] == '>'
    && (forall j :: 1 <= j < |t| - 1 ==> t[j] != '>')
    && exists k :: TrkptAt(t, k)
  }

  /** In `t`, "trkpt" starts at index k and only '/' stand between index 0 and it. */
  ghost predicate TrkptAt(t: string, k: int) {
    && 1 <= k <= |t| - 5
    && (forall j :: 1 <= j < k ==> t[j] == '/')
    && t[k..k + 5] == "trkpt"
  }

  /** The end of the run of '/' that starts at `i`. */
  function SkipSlashes(s: string, i: nat): (j: nat)
    requires i <= |s|
    ensures i <= j <= |s|
    ensures forall m :: i <= m < j ==> s[m] == '/'
    ensures j < |s| ==> s[j] != '/'
    decreases |s| - i
  {
    if i < |s| && s[i] == '/' then SkipSlashes(s, i + 1) else i
  }

  /** The first '>' at or after `i`, if there is one. */
  function FindGt(s: string, i: nat): (r: Option<nat>)
    requires i <= |s|
    ensures r.Some? ==> i <= r.value < |s| && s[r.value] == '>'
    ensures r.Some? ==> forall m :: i <= m < r.value ==> s[m] != '>'
    ensures r.None? ==> forall m :: i <= m < |s| ==> s[m] != '>'
    decreases |s| - i
  {
    if i == |s| then None
    else if s[i] == '>' then Some(i)
    else FindGt(s, i + 1)
  }

  /** The end (exclusive) of the match of TRKPT_TAG that starts at `p`, if any. Since the run
      of non-'>' characters cannot pass a '>', the match ends at the first '>' after "trkpt". */
  function MatchAt(s: string, p: nat): (r: Option<nat>)
    requires p <= |s|
    ensures r.Some? ==> p < r.value <= |s|
  {
    if p < |s| && s[p] == '<' then
      var q := SkipSlashes(s, p + 1);
      if q + 5 <= |s| && s[q..q + 5] == "trkpt" then
        match FindGt(s, q + 5)
        case Some(g) => Some(g + 1)
        case None => None
      else None
    else None
  }

  /** The five letters "trkpt" at index i, one by one. */
  lemma TrkptLetters(s: string, i: nat)
    requires i + 5 <= |s|
    requires s[i] == 't' && s[i + 1] == 'r' && s[i + 2] == 'k' && s[i + 3] == 'p' && s[i + 4] == 't'
    ensures s[i..i + 5] == "trkpt"
  {
    assert s[i..i + 5][0] == s[i] && s[i..i + 5][1] == s[i + 1] && s[i..i + 5][2] == s[i + 2];
    assert s[i..i + 5][3] == s[i + 3] && s[i..i + 5][4] == s[i + 4];
  }

  lemma TrkptLettersAt(s: string, i: nat)
    requires i + 5 <= |s|
    requires s[i..i + 5] == "trkpt"
    ensures s[i] == 't' && s[i + 1] == 'r' && s[i + 2] == 'k' && s[i + 3] == 'p' && s[i + 4] == 't'
  {
    assert s[i..i + 5][0] == s[i] && s[i..i + 5][1] == s[i + 1] && s[i..i + 5][2] == s[i + 2];
    assert s[i..i + 5][3] == s[i + 3] && s[i..i + 5][4] == s[i + 4];
  }

  /** What MatchAt finds is a match. */
  lemma MatchAtSound(s: string, p: nat)
    requires p <= |s|
    ensures MatchAt(s, p).Some? ==> IsTrkptTag(s[p..MatchAt(s, p).value])
  {
    if MatchAt(s, p).Some? {
      var e := MatchAt(s, p).value;
      var q := SkipSlashes(s, p + 1);
      var t := s[p..e];
      var k := q - p;
      TrkptLettersAt(s, q);
      assert t[k] == s[q] && t[k + 1] == s[q + 1] && t[k + 2] == s[q + 2];
      assert t[k + 3] == s[q + 3] && t[k + 4] == s[q + 4];
      TrkptLetters(t, k);
      forall j | 1 <= j < |t| - 1
        ensures t[j] != '>'
      {
        if j >= k + 5 {
          assert t[j] == s[p + j];
        } else if j >= k {
          assert t[j] == "trkpt"[j - k];
        } else {
          assert t[j] == s[p + j];
        }
      }
      assert forall j :: 1 <= j < k ==> t[j] == s[p + j] == '/';
      assert TrkptAt(t, k);
    }
  }

  /** A run of '/' from `i` that stops at `n` is what SkipSlashes skips. */
  lemma {:induction false} SkipSlashesStopsAt(s: string, i: nat, n: nat)
    requires i <= n < |s|
    requires forall m :: i <= m < n ==> s[m] == '/'
    requires s[n] != '/'
    ensures SkipSlashes(s, i) == n
    decreases n - i
  {
    if i < n {
      SkipSlashesStopsAt(s, i + 1, n);
    }
  }

  /** A '>' at `g` with none between `i` and it is the one FindGt finds. */
  lemma {:induction false} FindGtStopsAt(s: string, i: nat, g: nat)
    requires i <= g < |s|
    requires s[g] == '>'
    requires forall m :: i <= m < g ==> s[m] != '>'
    ensures FindGt(s, i) == Some(g)
    decreases g - i
  {
    if i < g {
      FindGtStopsAt(s, i + 1, g);
    }
  }

  /** Every match that starts at `p` is the one MatchAt finds: there is at most one, and
      MatchAt misses none. */
  lemma MatchAtComplete(s: string, p: nat, e: nat)
    requires p < e <= |s|
    requires IsTrkptTag(s[p..e])
    ensures MatchAt(s, p) == Some(e)
  {
    var t := s[p..e];
    var k :| TrkptAt(t, k);
    TrkptLettersAt(t, k);
    forall m | p + 1 <= m < p + k
      ensures s[m] == '/'
    {
      assert s[m] == t[m - p];
    }
    assert s[p + k] == t[k];
    SkipSlashesStopsAt(s, p + 1, p + k);
    var q := p + k;
    assert s[q] == t[k] && s[q + 1] == t[k + 1] && s[q + 2] == t[k + 2];
    assert s[q + 3] == t[k + 3] && s[q + 4] == t[k + 4];
    TrkptLetters(s, q);
    forall m | q + 5 <= m < e - 1
      ensures s[m] != '>'
    {
      assert s[m] == t[m - p];
    }
    assert s[e - 1] == t[|t| - 1];
    FindGtStopsAt(s, q + 5, e - 1);
    assert s[p] == t[0];
  }

  /** The input cut into the pieces the global replace sees: a match, or a single character
      at which no match starts. */
  datatype Piece = Plain(c: char) | Tag(text: string)

  /** The pieces of s[p..], scanning left to right as a global regular-expression replace does. */
  function Split(s: string, p: nat): (r: seq<Piece>)
    requires p <= |s|
    ensures |r| <= |s| - p
    ensures p < |s| ==> r != []
    decreases |s| - p
  {
    if p == |s| then []
    else
      match MatchAt(s, p)
      case Some(e) => [Tag(s[p..e])] + Split(s, e)
      case None => [Plain(s[p])] + Split(s, p + 1)
  }

  /** The characters the pieces stand for. */
  function Text(ps: seq<Piece>): string {
    if ps == [] then []
    else
      match ps[0]
      case Plain(c) => [c] + Text(ps[1..])
      case Tag(t) => t + Text(ps[1..])
  }

  /** The pieces written out with '\n' before and after every match. */
  function Render(ps: seq<Piece>): (r: string)
    ensures |r| == |Text(ps)| + 2 * TagCount(ps)
  {
    if ps == [] then []
    else
      match ps[0]
      case Plain(c) => [c] + Render(ps[1..])
      case Tag(t) => "\n" + t + "\n" + Render(ps[1..])
  }

  function TagCount(ps: seq<Piece>): nat {
    if ps == [] then 0 else (if ps[0].Tag? then 1 else 0) + TagCount(ps[1..])
  }

  /** The replace of fix.js line 43: every match, found left to right without overlap, gets a
      '\n' before and after it; everything else is copied. */
  function BreakTrkptTags(s: string): (r: string)
    ensures |r| == |s| + 2 * TagCount(Split(s, 0))
  {
    SplitText(s, 0);
    Render(Split(s, 0))
  }

  /** A piece that spells s[p..e] followed by pieces that spell s[e..] spell s[p..]. */
  lemma TextStep(s: string, p: nat, e: nat, x: Piece, rest: seq<Piece>)
    requires p < e <= |s|
    requires x == Tag(s[p..e]) || (e == p + 1 && x == Plain(s[p]))
    requires Text(rest) == s[e..]
    ensures Text([x] + rest) == s[p..]
  {
    assert ([x] + rest)[0] == x && ([x] + rest)[1..] == rest;
    assert s[p..] == s[p..e] + s[e..];
    if x.Plain? {
      assert s[p..e] == [s[p]];
    }
  }

  /** Cutting loses and changes nothing: the pieces spell out the input. */
  lemma {:induction false} SplitText(s: string, p: nat)
    requires p <= |s|
    ensures Text(Split(s, p)) == s[p..]
    decreases |s| - p
  {
    if p < |s| {
      match MatchAt(s, p)
      case Some(e) =>
        SplitText(s, e);
        TextStep(s, p, e, Tag(s[p..e]), Split(s, e));
      case None =>
        SplitText(s, p + 1);
        TextStep(s, p, p + 1, Plain(s[p]), Split(s, p + 1));
    }
  }

  /** Every Tag piece is a match of the expression. */
  lemma {:induction false} SplitTagsMatch(s: string, p: nat)
    requires p <= |s|
    ensures forall i :: 0 <= i < |Split(s, p)| && Split(s, p)[i].Tag? ==> IsTrkptTag(Split(s, p)[i].text)
    decreases |s| - p
  {
    if p < |s| {
      MatchAtSound(s, p);
      match MatchAt(s, p)
      case Some(e) =>
        SplitTagsMatch(s, e);
      case None =>
        SplitTagsMatch(s, p + 1);
    }
  }

  /** The first piece of s[p..]: the match that starts at p, or else the character at p. */
  lemma SplitHead(s: string, p: nat)
    requires p < |s|
    ensures Split(s, p) != []
    ensures MatchAt(s, p).Some? ==> Split(s, p)[0] == Tag(s[p..MatchAt(s, p).value])
    ensures MatchAt(s, p).None? ==> Split(s, p)[0] == Plain(s[p])
  {
  }

  /** The scan replaces a match exactly where one starts: s[p..] begins with the piece
      Tag(s[p..e]) iff s[p..e] matches; otherwise the character at p is copied. */
  lemma SplitAtMatch(s: string, p: nat, e: nat)
    requires p < e <= |s|
    ensures IsTrkptTag(s[p..e]) <==> Split(s, p) == [Tag(s[p..e])] + Split(s, e)
  {
    MatchAtSound(s, p);
    SplitHead(s, p);
    if IsTrkptTag(s[p..e]) {
      MatchAtComplete(s, p, e);
    } else if Split(s, p) == [Tag(s[p..e])] + Split(s, e) {
      assert false;
    }
  }

  lemma {:induction false} RenderNoTags(ps: seq<Piece>)
    requires TagCount(ps) == 0
    ensures Render(ps) == Text(ps)
  {
    if ps != [] {
      RenderNoTags(ps[1..]);
    }
  }

  lemma {:induction false} SplitNoTags(s: string, p: nat)
    requires p <= |s|
    requires forall i, e :: 0 <= i < e <= |s| ==> !IsTrkptTag(s[i..e])
    ensures TagCount(Split(s, p)) == 0
    decreases |s| - p
  {
    if p < |s| {
      MatchAtSound(s, p);
      SplitNoTags(s, p + 1);
    }
  }

  /** A text with no match anywhere is left exactly as it was. */
  lemma NoTagUnchanged(s: string)
    requires forall i, e :: 0 <= i < e <= |s| ==> !IsTrkptTag(s[i..e])
    ensures BreakTrkptTags(s) == s
  {
    SplitNoTags(s, 0);
    RenderNoTags(Split(s, 0));
    SplitText(s, 0);
  }

  /** Two matches in a row, each put on a line of its own. */
  lemma RenderTwoTags(a: string, b: string)
    ensures Render([Tag(a), Tag(b)]) == "\n" + a + "\n" + "\n" + b + "\n"
  {
    assert [Tag(a), Tag(b)][1..] == [Tag(b)];
    assert Render([Tag(b)]) == "\n" + b + "\n" + Render([]);
  }

  /** The opening tag of a trackpoint is found where it starts and ends at its '>'. */
  lemma ExampleOpenTag()
    ensures MatchAt("<trkpt a></trkpt>", 0) == Some(9)
  {
    var s := "<trkpt a></trkpt>";
    assert SkipSlashes(s, 1) == 1;
    TrkptLetters(s, 1);
    assert FindGt(s, 8) == Some(8);
    assert FindGt(s, 7) == Some(8);
    assert FindGt(s, 6) == Some(8);
  }

  /** The closing tag matches through its '/'. */
  lemma ExampleCloseTag()
    ensures MatchAt("<trkpt a></trkpt>", 9) == Some(17)
  {
    var s := "<trkpt a></trkpt>";
    assert SkipSlashes(s, 11) == 11;
    assert SkipSlashes(s, 10) == 11;
    TrkptLetters(s, 11);
    assert FindGt(s, 16) == Some(16);
  }

  /** The scan of `<trkpt a></trkpt>` finds the two tags and nothing else. */
  lemma ExampleSplit()
    ensures Split("<trkpt a></trkpt>", 0) == [Tag("<trkpt a>"), Tag("</trkpt>")]
  {
    var s := "<trkpt a></trkpt>";
    ExampleOpenTag();
    ExampleCloseTag();
    assert s[0..9] == "<trkpt a>" && s[9..17] == "</trkpt>";
    assert Split(s, 17) == [];
    assert Split(s, 9) == [Tag(s[9..17])] + Split(s, 17);
    assert Split(s, 0) == [Tag(s[0..9])] + Split(s, 9);
  }

  /** An empty trackpoint element ends up with each of its tags on a line of its own. */
  lemma ExampleTrackpointLines()
    ensures BreakTrkptTags("<trkpt a></trkpt>") == "\n" + "<trkpt a>" + "\n" + "\n" + "</trkpt>" + "\n"
  {
    ExampleSplit();
    RenderTwoTags("<trkpt a>", "</trkpt>");
  }
}
