/** The string operations the program uses, on sequences of characters. Letter case is ASCII case. */
module Text {
  /** The white space of Unicode, as TrimSpace and Fields see it. */
  predicate IsSpace(c: char) {
    '\t' <= c <= '\r' || c == ' ' || c == '\U{0085}' || c == '\U{00A0}' || c == '\U{1680}'
    || '\U{2000}' <= c <= '\U{200A}' || c == '\U{2028}' || c == '\U{2029}' || c == '\U{202F}'
    || c == '\U{205F}' || c == '\U{3000}'
  }

  function TrimLeft(s: string): (r: string)
    ensures r != "" ==> !IsSpace(r[0])
    ensures r != "" ==> s != "" && r[|r| - 1] == s[|s| - 1]
    ensures |r| <= |s|
  {
    if s != "" && IsSpace(s[0]) then TrimLeft(s[1..]) else s
  }

  function TrimRight(s: string): (r: string)
    ensures r <= s
    ensures r != "" ==> !IsSpace(r[|r| - 1])
  {
    if s != "" && IsSpace(s[|s| - 1]) then TrimRight(s[..|s| - 1]) else s
  }

  function TrimSpace(s: string): (r: string)
    ensures r != "" ==> !IsSpace(r[0]) && !IsSpace(r[|r| - 1])
    ensures s == "" || (!IsSpace(s[0]) && !IsSpace(s[|s| - 1])) ==> r == s
  {
    TrimRight(TrimLeft(s))
  }

  ghost predicate AllSpace(s: string) {
    forall i :: 0 <= i < |s| ==> IsSpace(s[i])
  }

  lemma {:induction false} TrimLeftPadded(pad: string, core: string)
    requires AllSpace(pad) && (core != "" ==> !IsSpace(core[0]))
    ensures TrimLeft(pad + core) == core
  {
    if pad == "" {
      assert pad + core == core;
    } else {
      assert (pad + core)[1..] == pad[1..] + core;
      TrimLeftPadded(pad[1..], core);
    }
  }

  lemma {:induction false} TrimRightPadded(core: string, pad: string)
    requires AllSpace(pad) && (core != "" ==> !IsSpace(core[|core| - 1]))
    ensures TrimRight(core + pad) == core
  {
    if pad == "" {
      assert core + pad == core;
    } else {
      assert (core + pad)[..|core + pad| - 1] == core + pad[..|pad| - 1];
      TrimRightPadded(core, pad[..|pad| - 1]);
    }
  }

  /** Trimming removes the white space around a text and nothing of the text. */
  lemma TrimPadded(left: string, core: string, right: string)
    requires AllSpace(left) && AllSpace(right) && (core != "" ==> !IsSpace(core[0]) && !IsSpace(core[|core| - 1]))
    ensures TrimSpace(left + core + right) == core
  {
    if core == "" {
      assert left + core + right == (left + right) + "";
      TrimLeftPadded(left + right, "");
    } else {
      assert left + core + right == left + (core + right);
      TrimLeftPadded(left, core + right);
      TrimRightPadded(core, right);
    }
  }

  /** The code points of white space, one by one. */
  lemma SpaceIsOneOf(c: char)
    ensures IsSpace(c) <==> c as int in {0x09, 0x0A, 0x0B, 0x0C, 0x0D, 0x20, 0x85, 0xA0, 0x1680, 0x2000, 0x2001, 0x2002,
                                         0x2003, 0x2004, 0x2005, 0x2006, 0x2007, 0x2008, 0x2009, 0x200A, 0x2028, 0x2029,
                                         0x202F, 0x205F, 0x3000}
  {}

  /** Letter case: the two cases of the 26 letters correspond, and nothing else changes. */
  lemma LetterCase(i: nat)
    requires i < 26
    ensures var lower, upper := "abcdefghijklmnopqrstuvwxyz", "ABCDEFGHIJKLMNOPQRSTUVWXYZ";
            && LowerChar(upper[i]) == lower[i] && LowerChar(lower[i]) == lower[i]
            && UpperChar(lower[i]) == upper[i] && UpperChar(upper[i]) == upper[i]
  {}

  lemma OtherCharsKept(c: char)
    requires !('a' <= c <= 'z') && !('A' <= c <= 'Z')
    ensures LowerChar(c) == c && UpperChar(c) == c
  {}

  function LowerChar(c: char): char {
    if 'A' <= c <= 'Z' then c - 'A' + 'a' else c
  }

  function UpperChar(c: char): char {
    if 'a' <= c <= 'z' then c - 'a' + 'A' else c
  }

  function ToLower(s: string): (r: string)
    ensures |r| == |s|
    ensures forall i :: 0 <= i < |s| ==> r[i] == LowerChar(s[i])
  {
    seq(|s|, i requires 0 <= i < |s| => LowerChar(s[i]))
  }

  function ToUpper(s: string): (r: string)
    ensures |r| == |s|
    ensures forall i :: 0 <= i < |s| ==> r[i] == UpperChar(s[i])
  {
    seq(|s|, i requires 0 <= i < |s| => UpperChar(s[i]))
  }

  predicate HasSuffix(s: string, suffix: string) {
    |suffix| <= |s| && s[|s| - |suffix|..] == suffix
  }

  lemma HasSuffixIff(s: string, suffix: string)
    ensures HasSuffix(s, suffix) <==> exists pre :: s == pre + suffix
  {
    if HasSuffix(s, suffix) {
      assert s == s[..|s| - |suffix|] + suffix;
    }
  }

  predicate FoundAt(s: string, p: string, i: int) {
    0 <= i <= |s| - |p| && s[i..i + |p|] == p
  }

  predicate Contains(s: string, p: string) {
    exists i | 0 <= i <= |s| - |p| :: FoundAt(s, p, i)
  }

  /** `kept` names, in increasing order, the positions of `whole` that make up `part`. */
  ghost predicate Picks(part: seq<string>, whole: seq<string>, kept: seq<nat>) {
    && |kept| == |part|
    && (forall i :: 0 <= i < |kept| ==> kept[i] < |whole| && part[i] == whole[kept[i]])
    && (forall i, j :: 0 <= i < j < |kept| ==> kept[i] < kept[j])
  }

  /** Positions in all but the last element stay right, and the last element may be added. */
  lemma PicksGrow(part: seq<string>, whole: seq<string>, kept: seq<nat>)
    requires whole != [] && Picks(part, whole[..|whole| - 1], kept)
    ensures Picks(part, whole, kept)
    ensures Picks(part + [whole[|whole| - 1]], whole, kept + [|whole| - 1])
    ensures |whole| - 1 !in kept
  {}

  /** The elements that `keep` holds of, in their order. */
  function Filter(lines: seq<string>, keep: string -> bool): (kept: seq<string>)
    ensures forall i :: 0 <= i < |kept| ==> keep(kept[i]) && kept[i] in lines
  {
    if lines == [] then []
    else
      var earlier, last := Filter(lines[..|lines| - 1], keep), lines[|lines| - 1];
      if keep(last) then earlier + [last] else earlier
  }

  lemma {:induction false} FilterAll(lines: seq<string>, keep: string -> bool)
    requires forall i :: 0 <= i < |lines| ==> keep(lines[i])
    ensures Filter(lines, keep) == lines
  {
    if lines != [] {
      FilterAll(lines[..|lines| - 1], keep);
    }
  }

  /** The filtered list is picked in order, and everything that should be kept is. */
  lemma {:induction false} FilterInOrder(lines: seq<string>, keep: string -> bool) returns (kept: seq<nat>)
    ensures Picks(Filter(lines, keep), lines, kept)
    ensures forall k :: 0 <= k < |lines| ==> (k in kept <==> keep(lines[k]))
  {
    if lines == [] {
      kept := [];
    } else {
      var n := |lines| - 1;
      kept := FilterInOrder(lines[..n], keep);
      PicksGrow(Filter(lines[..n], keep), lines, kept);
      if keep(lines[n]) {
        kept := kept + [n];
      }
    }
  }
}
