/** The built-in version namer: given the current version text and what the
    release contains, it produces the next version text by bumping exactly
    one of the first three dotted components. */
module VersionNamer {
  import opened Errors
  import opened Text

  /** `Number.MAX_SAFE_INTEGER`, 2^53 - 1. */
  const MaxSafeInteger: int := 0x1F_FFFF_FFFF_FFFF

  /** One dotted segment: `parseInt(v)` when that is a safe integer, else 0.
      A decimal digit run whose value is at most 2^53 - 1 is read exactly by
      `parseInt`, and every larger one rounds to a number that is not safe,
      so the unbounded value decides the safety test exactly. */
  function SegmentValue(v: string): (r: int)
    ensures -MaxSafeInteger <= r <= MaxSafeInteger
    ensures ParseInt(v).None? ==> r == 0
    ensures ParseInt(v).Some? && -MaxSafeInteger <= ParseInt(v).value <= MaxSafeInteger ==> r == ParseInt(v).value
  {
    match ParseInt(v)
    case None => 0
    case Some(n) => if -MaxSafeInteger <= n <= MaxSafeInteger then n else 0
  }

  /** At most the first three segments of `current.split('.')`, each read
      with `SegmentValue`. */
  function Components(current: string): (r: seq<int>)
    ensures 1 <= |r| <= 3
    ensures |r| == |Split(current, '.')| || |r| == 3 < |Split(current, '.')|
    ensures forall i :: 0 <= i < |r| ==> r[i] == SegmentValue(Split(current, '.')[i])
  {
    var parts := Split(current, '.');
    var kept := if |parts| <= 3 then parts else parts[..3];
    seq(|kept|, i requires 0 <= i < |kept| => SegmentValue(kept[i]))
  }

  /** A slot of the JavaScript array after the increment: a number, the
      `NaN` that `undefined + 1` gives, or a hole left by writing past the
      end of the array. */
  datatype Slot = Num(n: int) | NotANumber | Hole

  /** Which component is incremented: the major one for breaking changes,
      else the minor one for new features, else the patch one. The patch
      flag of the interface is not consulted. */
  function BumpIndex(withBreakingChanges: bool, withNewFeatures: bool): (k: nat)
    ensures k <= 2
    ensures k == 0 <==> withBreakingChanges
    ensures k == 1 <==> !withBreakingChanges && withNewFeatures
  {
    if withBreakingChanges then 0 else if withNewFeatures then 1 else 2
  }

  /** `ret[k]++` on the array of components. */
  function Bump(c: seq<int>, k: nat): (r: seq<Slot>)
    ensures |r| == if k < |c| then |c| else k + 1
    ensures forall i :: 0 <= i < |c| && i != k ==> r[i] == Num(c[i])
    ensures k < |c| ==> r[k] == Num(c[k] + 1)
    ensures |c| <= k ==> r[k] == NotANumber
    ensures forall i :: |c| <= i < k ==> r[i] == Hole
  {
    var kept := seq(|c|, i requires 0 <= i < |c| => Num(c[i]));
    if k < |c| then kept[k := Num(c[k] + 1)]
    else kept + seq(k - |c|, _ => Hole) + [NotANumber]
  }

  /** How `join` prints a slot. */
  function SlotText(s: Slot): (r: string)
    ensures '.' !in r
  {
    match s
    case Num(n) => IntToString(n)
    case NotANumber => "NaN"
    case Hole => ""
  }

  function Render(slots: seq<Slot>): (r: seq<string>)
    ensures |r| == |slots|
    ensures forall i :: 0 <= i < |r| ==> r[i] == SlotText(slots[i]) && '.' !in r[i]
  {
    seq(|slots|, i requires 0 <= i < |slots| => SlotText(slots[i]))
  }

  /** `BuiltInVersionNamer.next`. The environment name is accepted and not
      used. */
  function Next(current: string, env: string, withBreakingChanges: bool, withNewFeatures: bool): string
  {
    Join(Render(Bump(Components(current), BumpIndex(withBreakingChanges, withNewFeatures))), '.')
  }

  /** The components of a version as the next call would read them back. */
  function Reread(version: string): seq<Option<int>>
  {
    var parts := Split(version, '.');
    seq(|parts|, i requires 0 <= i < |parts| => ParseInt(parts[i]))
  }

  /** For an input of at least three segments, the result is three dot-joined
      integers: the chosen component is one more than before, and the other
      two are the input's, not reset. */
  lemma NextOfThreeSegments(current: string, env: string, withBreakingChanges: bool, withNewFeatures: bool)
    requires |Split(current, '.')| >= 3
    ensures var c := Components(current);
            var k := BumpIndex(withBreakingChanges, withNewFeatures);
            var back := Reread(Next(current, env, withBreakingChanges, withNewFeatures));
            |back| == 3 &&
            back[k] == Some(c[k] + 1) &&
            forall i :: 0 <= i < 3 && i != k ==> back[i] == Some(c[i])
  {
    var c := Components(current);
    var k := BumpIndex(withBreakingChanges, withNewFeatures);
    var slots := Bump(c, k);
    var texts := Render(slots);
    assert |c| == 3 && |slots| == 3;
    SplitJoin(texts, '.');
    var back := Reread(Next(current, env, withBreakingChanges, withNewFeatures));
    assert Split(Next(current, env, withBreakingChanges, withNewFeatures), '.') == texts;
    forall i | 0 <= i < 3
      ensures back[i] == Some(if i == k then c[k] + 1 else c[i])
    {
      var v := if i == k then c[k] + 1 else c[i];
      assert slots[i] == Num(v);
      assert texts[i] == IntToString(v);
      ParseIntToString(v);
    }
  }

  /** For a version of fewer segments than the chosen index, the
      missing components come out empty and the chosen one as `NaN`:
      `next("7", …, features)` is `"7.NaN"` and the patch bump of `"7"` is
      `"7..NaN"`. */
  lemma NextOfShortVersion(current: string, env: string, withBreakingChanges: bool, withNewFeatures: bool)
    requires |Split(current, '.')| <= BumpIndex(withBreakingChanges, withNewFeatures)
    ensures var parts := Split(Next(current, env, withBreakingChanges, withNewFeatures), '.');
            var n := |Split(current, '.')|;
            var k := BumpIndex(withBreakingChanges, withNewFeatures);
            |parts| == k + 1 && parts[k] == "NaN" &&
            (forall i :: n <= i < k ==> parts[i] == "") &&
            forall i :: 0 <= i < n ==> parts[i] == IntToString(Components(current)[i])
  {
    var c := Components(current);
    var k := BumpIndex(withBreakingChanges, withNewFeatures);
    SplitJoin(Render(Bump(c, k)), '.');
  }
}
