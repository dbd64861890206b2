/** Schema key paths as text (`scripts/gen-config-catalog.ts`): `agents[].id` and the steps it stands for. */
module SchemaPaths {
  import opened TypeLookup

  // ---------- reading ----------

  /** `endsWith('[]')`. */
  predicate EndsInArray(s: string) {
    |s| >= 2 && s[|s| - 2] == '[' && s[|s| - 1] == ']'
  }

  /** A segment without its trailing `[]` marks, and how many there were. */
  ghost function Stripped(seg: string): (string, nat)
    decreases |seg|
  {
    if EndsInArray(seg) then var (name, n) := Stripped(seg[..|seg| - 2]); (name, n + 1) else (seg, 0)
  }

  ghost function Arrays(n: nat): seq<Step> {
    if n == 0 then [] else [Array] + Arrays(n - 1)
  }

  ghost function SegmentSteps(seg: string): seq<Step> {
    var (name, n) := Stripped(seg); [Member(name)] + Arrays(n)
  }

  /** The segments between dots. */
  function Split(path: string): (segs: seq<string>)
    ensures segs != []
  {
    if path == "" then [""]
    else
      var rest := Split(path[1..]);
      if path[0] == '.' then [""] + rest else [[path[0]] + rest[0]] + rest[1..]
  }

  ghost function StepsOf(segs: seq<string>): seq<Step> {
    if segs == [] then [] else StepsOf(segs[..|segs| - 1]) + SegmentSteps(segs[|segs| - 1])
  }

  /** The steps a path text stands for. */
  ghost function Read(path: string): seq<Step> {
    StepsOf(Split(path))
  }

  lemma {:induction false} ArraysAppend(n: nat)
    ensures Arrays(n) + [Array] == Arrays(n + 1)
  {
    if n > 0 { ArraysAppend(n - 1); }
  }

  /** Strip and count the `[]` marks of one segment. */
  method StripSegment(seg: string) returns (name: string, arrays: nat)
    ensures (name, arrays) == Stripped(seg)
  {
    name, arrays := seg, 0;
    while EndsInArray(name)
      invariant Stripped(seg) == (Stripped(name).0, Stripped(name).1 + arrays)
      decreases |name|
    {
      name := name[..|name| - 2];
      arrays := arrays + 1;
    }
  }

  method PushSegment(steps: seq<Step>, seg: string) returns (r: seq<Step>)
    ensures r == steps + SegmentSteps(seg)
  {
    var name, arrays := StripSegment(seg);
    r := steps + [Member(name)];
    var i := 0;
    while i < arrays
      invariant 0 <= i <= arrays && r == steps + ([Member(name)] + Arrays(i))
    {
      ArraysAppend(i);
      r := r + [Array];
      i := i + 1;
    }
  }

  /** `parsePath`. */
  method ParsePath(path: string) returns (steps: seq<Step>)
    ensures steps == Read(path)
  {
    steps := [];
    var segs := Split(path);
    var k := 0;
    while k < |segs|
      invariant 0 <= k <= |segs| && steps == StepsOf(segs[..k])
    {
      steps := PushSegment(steps, segs[k]);
      assert segs[..k + 1][..k] == segs[..k];
      k := k + 1;
    }
    assert segs[..k] == segs;
  }

  // ---------- writing ----------

  /** A path as the schema walk composes it: the first key, then `.key` for a nested key and `[]` for an element. */
  ghost function Render(steps: seq<Step>): string
    requires steps != [] && steps[0].Member?
  {
    if |steps| == 1 then steps[0].name
    else
      var last := steps[|steps| - 1];
      Render(steps[..|steps| - 1]) + (if last.Member? then "." + last.name else "[]")
  }

  /** A name that neither contains a dot nor ends in an element mark. */
  ghost predicate PlainName(name: string) {
    '.' !in name && !exists stem :: name == stem + "[]"
  }

  lemma EndsInMark(name: string)
    ensures EndsInArray(name) <==> exists stem :: name == stem + "[]"
  {
    if EndsInArray(name) { assert name == name[..|name| - 2] + "[]"; }
  }

  ghost predicate PlainSteps(steps: seq<Step>) {
    forall i | 0 <= i < |steps| && steps[i].Member? :: PlainName(steps[i].name)
  }

  lemma {:induction false} SplitPlain(seg: string)
    requires '.' !in seg
    ensures Split(seg) == [seg]
  {
    if seg != "" {
      SplitPlain(seg[1..]);
      assert [seg[0]] + seg[1..] == seg;
    }
  }

  lemma {:induction false} SplitAppend(path: string, tail: string)
    requires '.' !in tail
    ensures Split(path + "." + tail) == Split(path) + [tail]
  {
    if path == "" {
      SplitPlain(tail);
      assert "" + "." + tail == "." + tail;
      assert ("." + tail)[1..] == tail;
    } else {
      SplitAppend(path[1..], tail);
      assert (path + "." + tail)[1..] == path[1..] + "." + tail;
    }
  }

  /** A character in front of the first segment. */
  ghost function Onto(c: char, segs: seq<string>): seq<string>
    requires segs != []
  {
    [[c] + segs[0]] + segs[1..]
  }

  /** An element mark after the last segment. */
  ghost function MarkLast(segs: seq<string>): seq<string>
    requires segs != []
  {
    segs[..|segs| - 1] + [segs[|segs| - 1] + "[]"]
  }

  lemma OntoMarked(c: char, segs: seq<string>)
    requires segs != []
    ensures Onto(c, MarkLast(segs)) == MarkLast(Onto(c, segs))
  {
    if |segs| == 1 {
      assert [c] + (segs[0] + "[]") == ([c] + segs[0]) + "[]";
    }
  }

  lemma {:induction false} SplitMark(path: string)
    ensures Split(path + "[]") == MarkLast(Split(path))
  {
    if path == "" {
      SplitPlain("[]");
      assert "" + "[]" == "[]";
    } else {
      var rest := Split(path[1..]);
      SplitMark(path[1..]);
      assert (path + "[]")[1..] == path[1..] + "[]" && (path + "[]")[0] == path[0];
      if path[0] == '.' {
        assert MarkLast([""] + rest) == [""] + MarkLast(rest);
      } else {
        OntoMarked(path[0], rest);
      }
    }
  }

  lemma {:induction false} SplitPieces(path: string)
    ensures forall seg | seg in Split(path) :: '.' !in seg
  {
    if path != "" { SplitPieces(path[1..]); }
  }

  lemma MarkSegment(seg: string)
    ensures SegmentSteps(seg + "[]") == SegmentSteps(seg) + [Array]
  {
    var marked := seg + "[]";
    assert marked[..|marked| - 2] == seg;
    ArraysAppend(Stripped(seg).1);
  }

  lemma ReadMember(path: string, name: string)
    requires PlainName(name)
    ensures Read(path + ("." + name)) == Read(path) + [Member(name)]
  {
    EndsInMark(name);
    var segs := Split(path);
    SplitAppend(path, name);
    assert path + ("." + name) == path + "." + name;
    assert (segs + [name])[..|segs|] == segs;
  }

  lemma ReadArray(path: string)
    ensures Read(path + "[]") == Read(path) + [Array]
  {
    var segs := Split(path);
    var n := |segs| - 1;
    SplitMark(path);
    MarkSegment(segs[n]);
    assert MarkLast(segs)[..n] == segs[..n];
  }

  lemma RenderAppend(before: seq<Step>, last: Step)
    requires before != [] && before[0].Member?
    ensures Render(before + [last]) == Render(before) + (if last.Member? then "." + last.name else "[]")
  {
  }

  lemma {:induction false} RenderReads(steps: seq<Step>)
    requires steps != [] && steps[0].Member? && PlainSteps(steps)
    ensures Read(Render(steps)) == steps
    decreases |steps|
  {
    var n := |steps| - 1;
    var before, last := steps[..n], steps[n];
    assert steps == before + [last];
    if n == 0 {
      ReadName(last.name);
    } else {
      RenderReads(before);
      RenderAppend(before, last);
      var shorter := Render(before);
      if last.Member? { ReadMember(shorter, last.name); } else { ReadArray(shorter); }
    }
  }

  lemma ReadName(name: string)
    requires PlainName(name)
    ensures Read(name) == [Member(name)]
  {
    EndsInMark(name);
    SplitPlain(name);
    assert [name][..0] == [];
  }

  lemma {:induction false} StrippedIsPlain(seg: string)
    requires '.' !in seg
    ensures PlainName(Stripped(seg).0)
    decreases |seg|
  {
    EndsInMark(seg);
    if EndsInArray(seg) { StrippedIsPlain(seg[..|seg| - 2]); }
  }

  lemma {:induction false} ArraysOnly(n: nat)
    ensures forall i | 0 <= i < |Arrays(n)| :: Arrays(n)[i].Array?
  {
    if n > 0 { ArraysOnly(n - 1); }
  }

  lemma {:induction false} StepsArePlain(segs: seq<string>)
    requires forall seg | seg in segs :: '.' !in seg
    ensures PlainSteps(StepsOf(segs))
  {
    if segs != [] {
      var n := |segs| - 1;
      StepsArePlain(segs[..n]);
      StrippedIsPlain(segs[n]);
      ArraysOnly(Stripped(segs[n]).1);
    }
  }

  /** A rendered path reads back as its steps exactly when every member name is plain. */
  lemma RoundTripsExactlyPlain(steps: seq<Step>)
    requires steps != [] && steps[0].Member?
    ensures Read(Render(steps)) == steps <==> PlainSteps(steps)
  {
    if PlainSteps(steps) { RenderReads(steps); }
    SplitPieces(Render(steps));
    StepsArePlain(Split(Render(steps)));
  }
}
