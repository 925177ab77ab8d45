/** An object literal as a script: it is parsed inside parentheses that the script does not have.
    src/processing/script/index.ts */
module ScriptObject {
  import opened Prelude
  import opened ScriptChanges
  import opened ScriptCoverage
  import opened ScriptSplice
  import opened ScriptRender

  /** The text that is parsed for an object literal. */
  function Wrap(src: string): string {
    "(" + src + ")"
  }

  /** A declaration before the opening parenthesis, or a change between the parentheses. */
  predicate KeepsParentheses(c: Change, length: nat) {
    c.start == c.end == 0 || 1 <= c.start <= c.end <= length + 1
  }

  /** Between the parentheses the script is the parsed text, one place earlier. */
  lemma {:induction false} SpliceBetween(gen: Generator, src: string, cs: seq<Change>, from: nat)
    requires 1 <= from && InRange(cs, from, |src| + 1)
    ensures InRange(AllPlaced(cs, -1, |src|), from - 1, |src|)
    ensures SpliceRange(gen, Wrap(src), cs, from, |src| + 1) == SpliceRange(gen, src, AllPlaced(cs, -1, |src|), from - 1, |src|)
    decreases |cs|
  {
    var placed := AllPlaced(cs, -1, |src|);
    if cs == [] {
      ShiftSlice(src, from, |src| + 1);
    } else {
      InRangeBound(cs[1..], cs[0].end, |src| + 1);
      assert placed[1..] == AllPlaced(cs[1..], -1, |src|);
      SpliceBetween(gen, src, cs[1..], cs[0].end);
      HeadShifted(gen, src, cs, from, placed);
    }
  }

  lemma HeadShifted(gen: Generator, src: string, cs: seq<Change>, from: nat, placed: seq<Change>)
    requires cs != [] && 1 <= from && InRange(cs, from, |src| + 1) && cs[0].end <= |src| + 1
    requires placed == AllPlaced(cs, -1, |src|) && placed[1..] == AllPlaced(cs[1..], -1, |src|)
    requires InRange(placed[1..], cs[0].end - 1, |src|)
    requires SpliceRange(gen, Wrap(src), cs[1..], cs[0].end, |src| + 1) == SpliceRange(gen, src, placed[1..], cs[0].end - 1, |src|)
    ensures InRange(placed, from - 1, |src|)
    ensures SpliceRange(gen, Wrap(src), cs, from, |src| + 1) == SpliceRange(gen, src, placed, from - 1, |src|)
  {
    ShiftSlice(src, from, cs[0].start);
    ShiftSlice(src, cs[0].start, cs[0].end);
  }

  lemma ShiftSlice(src: string, from: nat, to: nat)
    requires 1 <= from <= to <= |src| + 1
    ensures Wrap(src)[from..to] == src[from - 1..to - 1]
  {
  }

  lemma WrapLength(src: string)
    ensures |Wrap(src)| == |src| + 2 && Wrap(src)[0..1] == "(" && Wrap(src)[|src| + 1..|src| + 2] == ")"
  {
  }

  /** The case without changes before the opening parenthesis. */
  lemma SpliceInner(gen: Generator, src: string, cs: seq<Change>, index: int) returns (body: string)
    requires InRange(cs, 1, |src| + 1) && -1 <= index <= 0
    ensures |Wrap(src)| == |src| + 2 && InRange(cs, 0, |src| + 2)
    ensures SpliceRange(gen, Wrap(src), cs, 0, |src| + 2) == Wrap(body)
    ensures Splice(gen, src, cs, -1, index) == body
  {
    WrapLength(src);
    SpliceBetween(gen, src, cs, 1);
    body := SpliceRange(gen, src, AllPlaced(cs, -1, |src|), 0, |src|);
    assert Splice(gen, src, cs, -1, 0) == body by { SpliceIsRange(gen, src, cs, -1, 1); }
    SpliceFromClamped(gen, src, cs);
    SpliceFromEarlier(gen, Wrap(src), cs, 0, 1, |src| + 1);
    SpliceConcat(gen, Wrap(src), cs, [], 0, |src| + 1, |src| + 2);
    assert cs + [] == cs;
  }

  /** A change before the opening parenthesis comes first in both texts. */
  lemma SpliceOuter(gen: Generator, src: string, cs: seq<Change>, index: int)
    requires cs != [] && cs[0].start == cs[0].end == 0 && InRange(cs, 0, |src| + 2) && -1 <= index <= 0
    ensures |Wrap(src)| == |src| + 2 && InRange(cs[1..], 0, |src| + 2)
    ensures SpliceRange(gen, Wrap(src), cs, 0, |src| + 2)
         == Text(gen, cs[0], "") + SpliceRange(gen, Wrap(src), cs[1..], 0, |src| + 2)
    ensures Splice(gen, src, cs, -1, index) == Text(gen, cs[0], "") + Splice(gen, src, cs[1..], -1, -1)
  {
    WrapLength(src);
    InRangeBound(cs[1..], 0, |src| + 2);
    assert Wrap(src)[0..0] == "" && Substring(src, index, -1) == "" && Substring(src, -1, -1) == "";
    Leading(Text(gen, cs[0], ""));
  }

  lemma Leading(t: string)
    ensures "" + t == t
  {
  }

  /** The texts of the changes before the opening parenthesis. */
  function Before(gen: Generator, cs: seq<Change>): string {
    if cs == [] || cs[0].start != 0 then "" else Text(gen, cs[0], "") + Before(gen, cs[1..])
  }

  /** The loop leaves out the two parentheses and nothing else. */
  lemma {:induction false} SpliceDropsParentheses(gen: Generator, src: string, cs: seq<Change>, index: int)
    returns (body: string)
    requires InRange(cs, 0, |src| + 2) && -1 <= index <= 0
    requires forall c :: c in cs ==> KeepsParentheses(c, |src|)
    ensures |Wrap(src)| == |src| + 2
    ensures SpliceRange(gen, Wrap(src), cs, 0, |src| + 2) == Before(gen, cs) + Wrap(body)
    ensures Splice(gen, src, cs, -1, index) == Before(gen, cs) + body
    decreases |cs|
  {
    if cs != [] && cs[0].start == 0 {
      assert cs[0] in cs && forall c :: c in cs[1..] ==> c in cs;
      SpliceOuter(gen, src, cs, index);
      var text, rest := Text(gen, cs[0], ""), Before(gen, cs[1..]);
      body := SpliceDropsParentheses(gen, src, cs[1..], -1);
      Assoc(text, rest, Wrap(body));
      Assoc(text, rest, body);
    } else {
      InnerInRange(cs, 1, |src|);
      body := SpliceInner(gen, src, cs, index);
      Leading(Wrap(body));
      Leading(body);
    }
  }

  lemma {:induction false} InnerInRange(cs: seq<Change>, from: int, length: nat)
    requires InRange(cs, from, length + 2) && 1 <= from <= length + 1
    requires forall c :: c in cs ==> KeepsParentheses(c, length)
    ensures InRange(cs, from, length + 1)
    decreases |cs|
  {
    if cs != [] {
      assert KeepsParentheses(cs[0], length) by { assert cs[0] in cs; }
      assert forall c :: c in cs[1..] ==> c in cs;
      InnerInRange(cs[1..], cs[0].end, length);
    }
  }

  /** For an object literal collecting and splicing give the text rendered from the tree of the
      parenthesised source without its two parentheses. */
  lemma ObjectScriptIsRendered(gen: Generator, src: string, program: Node) returns (body: string)
    requires Placeable(program, |src| + 2) && program.kind == Program && !Changed(program)
    requires program.start == 0 && program.end == |src| + 2
    requires forall c :: c in Changes(program, Program) ==> KeepsParentheses(c, |src|)
    ensures |Wrap(src)| == |src| + 2
    ensures var head := Before(gen, Sorted(Changes(program, Program)));
            && Render(gen, Wrap(src), program, Program) == head + Wrap(body)
            && Splice(gen, src, Sorted(Changes(program, Program)), Offset(true), 0) == head + body
  {
    WrapLength(src);
    var cs := DocOrder(program, Program);
    SortedIsDocOrder(program, Program, |src| + 2);
    SortedSorts(Changes(program, Program));
    SpliceRenders(gen, Wrap(src), program, Program);
    assert forall c :: c in cs <==> c in Changes(program, Program);
    assert InRange(cs, 0, |src| + 2);
    body := SpliceDropsParentheses(gen, src, cs, 0);
  }
}
