/** The pieces of Node's POSIX `path` module the routes use: `extname`,
    `basename` with a suffix, and `join`. File names here never contain '/'
    (the multipart parser keeps only the last component of an uploaded name),
    so a name is its own last path component. */
module Paths {

  /** Index of the last '.' in `s`, or -1 when there is none. */
  function LastDot(s: string): (r: int)
    ensures -1 <= r < |s|
    ensures r >= 0 ==> s[r] == '.'
    ensures forall i :: r < i < |s| ==> s[i] != '.'
    decreases |s|
  {
    if |s| == 0 then -1
    else if s[|s| - 1] == '.' then |s| - 1
    else LastDot(s[..|s| - 1])
  }

  /** `path.extname`: from the last '.' to the end, except that a leading dot
      (".bashrc") and the name ".." have no extension. */
  function ExtName(name: string): (r: string)
    ensures |r| <= |name| && name[|name| - |r|..] == r
    ensures r != "" <==> name != ".." && exists i :: 0 < i < |name| && name[i] == '.'
    ensures r != "" ==> r[0] == '.' && forall i :: 0 < i < |r| ==> r[i] != '.'
  {
    var d := LastDot(name);
    if d <= 0 || name == ".." then "" else name[d..]
  }

  /** A name with a non-empty stem and a dot-free, non-empty tail after its
      last dot has that tail, with the dot, as its extension. */
  lemma ExtNameOfSplit(stem: string, tail: string)
    requires |stem| > 0 && tail != "" && '.' !in tail
    ensures ExtName(stem + "." + tail) == "." + tail
  {
    var n := stem + "." + tail;
    assert n[|stem|] == '.';
    forall i | |stem| < i < |n| ensures n[i] != '.' {
      assert n[i] == tail[i - |stem| - 1];
    }
    assert LastDot(n) == |stem|;
    assert n[|stem|..] == "." + tail;
  }

  /** `path.basename(name, path.extname(name))`: the name without its extension. */
  function BaseName(name: string): (r: string)
    ensures r + ExtName(name) == name
  {
    name[..|name| - |ExtName(name)|]
  }

  /** `path.join` of two segments: a '/' between them, nothing added when
      either side is empty. */
  function Join(a: string, b: string): (r: string)
    ensures a == "" ==> r == b
    ensures a != "" && b == "" ==> r == a
    ensures a != "" && b != "" ==> |r| == |a| + 1 + |b| && r[..|a|] == a && r[|a|] == '/' && r[|a| + 1..] == b
  {
    if a == "" then b else if b == "" then a else a + "/" + b
  }

  /** No segment of `xs` is empty. */
  predicate NoEmptySegment(xs: seq<string>) {
    forall i :: 0 <= i < |xs| ==> xs[i] != ""
  }

  lemma NoEmptySegmentSnoc(xs: seq<string>, y: string)
    requires NoEmptySegment(xs) && y != ""
    ensures NoEmptySegment(xs + [y])
  {
    forall i | 0 <= i < |xs + [y]| ensures (xs + [y])[i] != "" {
      if i < |xs| { assert (xs + [y])[i] == xs[i]; }
    }
  }

  /** The segments of `xs` written out with a '/' between each two:
      `a/b/c` for `[a, b, c]`. */
  function Slashed(xs: seq<string>): (r: string)
    ensures |xs| > 0 ==> |r| >= |xs[0]|
  {
    if |xs| == 0 then "" else if |xs| == 1 then xs[0] else xs[0] + "/" + Slashed(xs[1..])
  }

  /** Joining one more non-empty segment onto slash-separated segments
      gives the segments with that one appended. */
  lemma {:induction false} JoinSlashed(xs: seq<string>, y: string)
    requires NoEmptySegment(xs) && y != ""
    ensures Join(Slashed(xs), y) == Slashed(xs + [y])
    decreases |xs|
  {
    if |xs| == 0 {
      assert xs + [y] == [y];
    } else if |xs| == 1 {
      assert (xs + [y])[1..] == [y];
    } else {
      var tail := xs[1..];
      assert NoEmptySegment(tail) by {
        forall i | 0 <= i < |tail| ensures tail[i] != "" {
          assert tail[i] == xs[i + 1];
        }
      }
      JoinSlashed(tail, y);
      var rest := Slashed(tail);
      assert rest != "" by {
        assert tail[0] == xs[1];
      }
      var ys := xs + [y];
      assert |ys| > 1 && ys[0] == xs[0] && ys[1..] == tail + [y];
      calc {
        Join(Slashed(xs), y);
        Slashed(xs) + "/" + y;
        (xs[0] + "/" + rest) + "/" + y;
        xs[0] + "/" + (rest + "/" + y);
        xs[0] + "/" + Join(rest, y);
        xs[0] + "/" + Slashed(tail + [y]);
        Slashed(ys);
      }
    }
  }
}
