/** JavaScript string helpers: `trim` and the white space it removes, which is also what `\s` matches. */
module Text {

  predicate IsSpace(c: char) {
    var u := c as int;
    0x09 <= u <= 0x0D || u == 0x20 || u == 0xA0 || u == 0x1680 || 0x2000 <= u <= 0x200A
    || u == 0x2028 || u == 0x2029 || u == 0x202F || u == 0x205F || u == 0x3000 || u == 0xFEFF
  }

  ghost predicate AllSpaces(s: string) {
    forall c :: c in s ==> IsSpace(c)
  }

  /** Neither end of s is white space. */
  predicate Tidy(s: string) {
    s == "" || (!IsSpace(s[0]) && !IsSpace(s[|s| - 1]))
  }

  function TrimStart(s: string): string {
    if s == "" || !IsSpace(s[0]) then s else TrimStart(s[1..])
  }

  function TrimEnd(s: string): string {
    if s == "" || !IsSpace(s[|s| - 1]) then s else TrimEnd(s[..|s| - 1])
  }

  function Trim(s: string): string {
    TrimEnd(TrimStart(s))
  }

  lemma {:induction false} TrimStartSplits(s: string) returns (lead: string)
    ensures s == lead + TrimStart(s) && AllSpaces(lead)
    ensures TrimStart(s) != "" ==> !IsSpace(TrimStart(s)[0])
  {
    if s == "" || !IsSpace(s[0]) {
      lead := "";
    } else {
      lead := TrimStartSplits(s[1..]);
      lead := [s[0]] + lead;
    }
  }

  lemma {:induction false} TrimEndSplits(s: string) returns (tail: string)
    ensures s == TrimEnd(s) + tail && AllSpaces(tail)
    ensures TrimEnd(s) != "" ==> !IsSpace(TrimEnd(s)[|TrimEnd(s)| - 1])
  {
    if s == "" || !IsSpace(s[|s| - 1]) {
      tail := "";
    } else {
      tail := TrimEndSplits(s[..|s| - 1]);
      tail := tail + [s[|s| - 1]];
    }
  }

  /** `trim` takes white space, and nothing else, off both ends, and leaves none there. */
  lemma TrimSplits(s: string) returns (lead: string, tail: string)
    ensures s == lead + Trim(s) + tail
    ensures AllSpaces(lead) && AllSpaces(tail) && Tidy(Trim(s))
  {
    lead := TrimStartSplits(s);
    tail := TrimEndSplits(TrimStart(s));
    assert s == lead + (Trim(s) + tail);
    if Trim(s) != "" {
      assert TrimStart(s)[0] == Trim(s)[0];
    }
  }

  /** Trimming is decided by the decomposition: what lies between two runs of white space and is tidy is the result. */
  lemma {:induction false} TrimOf(lead: string, core: string, tail: string)
    requires AllSpaces(lead) && AllSpaces(tail) && Tidy(core)
    ensures Trim(lead + core + tail) == core
    decreases |lead| + |tail|
  {
    var s := lead + core + tail;
    if lead != "" {
      assert s[0] == lead[0] && lead[0] in lead;
      assert s[1..] == lead[1..] + core + tail;
      TrimOf(lead[1..], core, tail);
    } else if core != "" {
      assert s[0] == core[0];
      assert TrimStart(s) == s == core + tail;
      TrimEndOf(core, tail);
    } else {
      assert s == tail;
      BlankTrims(tail);
    }
  }

  lemma {:induction false} TrimEndOf(core: string, tail: string)
    requires AllSpaces(tail) && core != "" && !IsSpace(core[|core| - 1])
    ensures TrimEnd(core + tail) == core
  {
    if tail == "" {
      assert core + tail == core;
    } else {
      var s := core + tail;
      assert s[|s| - 1] == tail[|tail| - 1] && tail[|tail| - 1] in tail;
      assert s[..|s| - 1] == core + tail[..|tail| - 1];
      TrimEndOf(core, tail[..|tail| - 1]);
    }
  }

  lemma {:induction false} BlankTrims(s: string)
    requires AllSpaces(s)
    ensures TrimStart(s) == ""
  {
    if s != "" {
      assert s[0] in s;
      BlankTrims(s[1..]);
    }
  }

  /** Only white space trims to nothing. */
  lemma TrimBlank(s: string)
    ensures Trim(s) == "" <==> AllSpaces(s)
  {
    var lead, tail := TrimSplits(s);
    if AllSpaces(s) {
      TrimOf(s, "", "");
      assert s + "" + "" == s;
    }
  }
}
