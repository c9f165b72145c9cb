/** Editing a document's tags as one comma-separated draft: printing on start, parsing on save. */
module TagEditor {
  import opened Text

  /** `tags.join(", ")`. */
  function Print(tags: seq<string>): string {
    if tags == [] then "" else if |tags| == 1 then tags[0] else tags[0] + ", " + Print(tags[1..])
  }

  /** `draft.split(",")`. */
  function Split(draft: string): (pieces: seq<string>)
    ensures pieces != []
  {
    if draft == "" then [""]
    else
      var rest := Split(draft[1..]);
      if draft[0] == ',' then [""] + rest else [[draft[0]] + rest[0]] + rest[1..]
  }

  /** `.map(trim).filter(Boolean)`. */
  function Clean(pieces: seq<string>): seq<string> {
    if pieces == [] then [] else
      var tag := Trim(pieces[0]);
      (if tag == "" then [] else [tag]) + Clean(pieces[1..])
  }

  function Parse(draft: string): seq<string> {
    Clean(Split(draft))
  }

  /** A tag as the editor can hold it: tidy, not empty, without a comma. */
  ghost predicate IsTag(s: string) {
    s != "" && Tidy(s) && ',' !in s
  }

  ghost predicate AreTags(tags: seq<string>) {
    forall t :: t in tags ==> IsTag(t)
  }

  // ----- splitting -----

  lemma {:induction false} SplitPieces(draft: string)
    ensures forall p :: p in Split(draft) ==> ',' !in p
  {
    if draft != "" {
      SplitPieces(draft[1..]);
      var rest := Split(draft[1..]);
      assert rest[0] in rest;
    }
  }

  lemma {:induction false} SplitNoComma(p: string)
    requires ',' !in p
    ensures Split(p) == [p]
  {
    if p != "" {
      SplitNoComma(p[1..]);
      assert p[0] in p && [p[0]] + p[1..] == p;
    }
  }

  lemma {:induction false} SplitAtComma(p: string, rest: string)
    requires ',' !in p
    ensures Split(p + "," + rest) == [p] + Split(rest)
  {
    var s := p + "," + rest;
    if p == "" {
      assert s[1..] == rest;
    } else {
      SplitAtComma(p[1..], rest);
      assert s[1..] == p[1..] + "," + rest;
      assert [p[0]] + p[1..] == p;
    }
  }

  // ----- the round trips -----

  /** A parsed draft is a list of tags, whatever was typed. */
  lemma ParseGivesTags(draft: string)
    ensures AreTags(Parse(draft))
  {
    SplitPieces(draft);
    CleanGivesTags(Split(draft));
  }

  lemma {:induction false} CleanGivesTags(pieces: seq<string>)
    requires forall p :: p in pieces ==> ',' !in p
    ensures AreTags(Clean(pieces))
  {
    if pieces != [] {
      CleanGivesTags(pieces[1..]);
      var lead, tail := TrimSplits(pieces[0]);
      assert pieces[0] in pieces;
      assert forall c :: c in Trim(pieces[0]) ==> c in lead + Trim(pieces[0]) + tail;
    }
  }

  /** What is typed between two commas gives its text trimmed, or nothing if blank, wherever it stands; so a blank piece
      takes no other with it. */
  lemma ParsePieces(piece: string, rest: string)
    requires ',' !in piece
    ensures Parse(piece) == if AllSpaces(piece) then [] else [Trim(piece)]
    ensures Parse(piece + "," + rest) == Parse(piece) + Parse(rest)
  {
    SplitNoComma(piece);
    SplitAtComma(piece, rest);
    TrimBlank(piece);
    var tag := Trim(piece);
    assert ([piece] + Split(rest))[1..] == Split(rest) && [piece][1..] == [];
    assert Clean([piece]) == (if tag == "" then [] else [tag]) + Clean([piece][1..]);
  }

  /** The draft shows each tag as it is, a comma and a space between any two. */
  lemma {:induction false} PrintJoins(a: seq<string>, b: seq<string>, tag: string)
    ensures Print([tag]) == tag
    ensures a != [] && b != [] ==> Print(a + b) == Print(a) + ", " + Print(b)
  {
    if |a| > 1 {
      assert (a + b)[1..] == a[1..] + b && (a + b)[0] == a[0];
      PrintJoins(a[1..], b, tag);
      assert a[0] + ", " + (Print(a[1..]) + ", " + Print(b)) == a[0] + ", " + Print(a[1..]) + ", " + Print(b);
    } else if |a| == 1 {
      assert (a + b)[1..] == b;
    }
  }

  /** One tag, behind the separator's space or not, is read back on its own. */
  lemma CleanOne(lead: string, tag: string, rest: seq<string>)
    requires AllSpaces(lead) && IsTag(tag)
    ensures Clean([lead + tag] + rest) == [tag] + Clean(rest)
  {
    TrimOf(lead, tag, "");
    assert lead + tag + "" == lead + tag;
    assert ([lead + tag] + rest)[1..] == rest;
  }

  lemma {:induction false} ParsePrintBehind(lead: string, tags: seq<string>)
    requires AllSpaces(lead) && ',' !in lead && AreTags(tags) && tags != []
    ensures Parse(lead + Print(tags)) == tags
    decreases |tags|
  {
    var first := lead + tags[0];
    assert tags[0] in tags;
    if |tags| == 1 {
      SplitNoComma(first);
      CleanOne(lead, tags[0], []);
      assert tags == [tags[0]];
    } else {
      var others := tags[1..];
      ParsePrintBehind(" ", others);
      assert lead + Print(tags) == first + "," + (" " + Print(others));
      SplitAtComma(first, " " + Print(others));
      CleanOne(lead, tags[0], Split(" " + Print(others)));
      assert tags == [tags[0]] + others;
    }
  }

  /** Saving an untouched draft gives the list back exactly when every entry is a tag as the editor can hold it. */
  lemma RoundTripIff(tags: seq<string>)
    ensures Parse(Print(tags)) == tags <==> AreTags(tags)
  {
    if AreTags(tags) {
      if tags == [] {
        assert Split("") == [""];
        assert Clean([""]) == [];
      } else {
        assert "" + Print(tags) == Print(tags);
        ParsePrintBehind("", tags);
      }
    }
    if Parse(Print(tags)) == tags {
      ParseGivesTags(Print(tags));
    }
  }

  /** Saving, reopening and saving again changes nothing more. */
  lemma ParseStable(draft: string)
    ensures Parse(Print(Parse(draft))) == Parse(draft)
  {
    ParseGivesTags(draft);
    RoundTripIff(Parse(draft));
  }
}
