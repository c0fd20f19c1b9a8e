/** The text side of the typing animation: `read_py_file`, which turns an input
    file into the code to type, its render mode and the offset typing starts
    from, and the `TypeStream` driver, which walks the prefixes of the code and
    hands each one, with a caret, to the renderer and the video writer.
    Rendering is a parameter, a function from text to image; the driver's
    effects are a log of the texts whose frames are written. */
module TypeStream {
  import opened PyStr
  import Utils
  import Config

  /** The directive marker of the input convention. */
  const Marker: string := "# !!"
  /** Appended to the file text before it is split into lines. */
  const Sentinel: char := '\U{A0}'
  /** `chr(9612)`, the block drawn after the typed prefix as a cursor. */
  const Caret: char := '\U{258C}'

  predicate HasMarker(l: string)
  {
    Contains(l, Marker)
  }

  /** `l.split("# !!")[1]`: the directive of a marked line. */
  function Command(l: string): string
    requires HasMarker(l)
  {
    FindFound(l, Marker);
    SecondField(l, Marker)
  }

  predicate IsStart(l: string)
  {
    HasMarker(l) && Command(l) == "start"
  }

  // ---------------------------------------------------------------------------
  // read_py_file

  /** The lines that survive preprocessing: those without a marker, in order. */
  function Kept(ls: seq<string>): seq<string>
  {
    if |ls| == 0 then []
    else Kept(ls[..|ls| - 1]) + (if HasMarker(ls[|ls| - 1]) then [] else [ls[|ls| - 1]])
  }

  /** `n_chars`: the characters of the given lines, each with its newline. */
  function CharCount(ls: seq<string>): nat
  {
    if |ls| == 0 then 0 else CharCount(ls[..|ls| - 1]) + |ls[|ls| - 1]| + 1
  }

  /** `start`: at each `start` directive, the characters of the lines kept so
      far; the last such directive wins, and 0 stands when there is none. */
  function StartOffset(ls: seq<string>): nat
  {
    if |ls| == 0 then 0
    else if IsStart(ls[|ls| - 1]) then CharCount(Kept(ls[..|ls| - 1]))
    else StartOffset(ls[..|ls| - 1])
  }

  /** The lines `read_py_file` works on: the file text with the sentinel
      appended, split on newlines. */
  function Lines(raw: string): (r: seq<string>)
    ensures |r| >= 1
  {
    Split(raw + [Sentinel])
  }

  /** What `read_py_file` returns. */
  datatype CodeBuffer = CodeBuffer(code: string, mode: string, startAt: nat)

  /** `read_py_file` on the text `raw` of the file: the first line, stripped of
      its markers, is the render mode; every later line with a marker is
      dropped, the others are joined back; and `start` is taken at the last
      `start` directive. */
  method ReadPyFile(raw: string) returns (buf: CodeBuffer)
    ensures buf.code == Join(Kept(Lines(raw)[1..]))
    ensures buf.mode == Remove(Lines(raw)[0], Marker)
    ensures buf.startAt == StartOffset(Lines(raw)[1..])
  {
    var lines := Lines(raw);
    var linesNew: seq<string> := [];
    var start, nChars := 0, 0;
    for k := 1 to |lines|
      invariant linesNew == Kept(lines[1..k])
      invariant nChars == CharCount(linesNew)
      invariant start == StartOffset(lines[1..k])
    {
      var l := lines[k];
      StepAt(lines, k);
      if HasMarker(l) {
        var cmd := Command(l);
        if cmd == "ignore" {
          // dropped
        } else if cmd == "start" {
          start := nChars;
        }
      } else {
        nChars := nChars + |l| + 1;
        linesNew := linesNew + [l];
      }
    }
    assert lines[1..|lines|] == lines[1..];
    buf := CodeBuffer(Join(linesNew), Remove(lines[0], Marker), start);
  }

  /** One line more: how the kept lines, their count and the offset grow. */
  lemma Step(ls: seq<string>, l: string)
    ensures Kept(ls + [l]) == Kept(ls) + (if HasMarker(l) then [] else [l])
    ensures CharCount(ls + [l]) == CharCount(ls) + |l| + 1
    ensures StartOffset(ls + [l]) == if IsStart(l) then CharCount(Kept(ls)) else StartOffset(ls)
  {
    assert (ls + [l])[..|ls|] == ls;
  }

  /** Step, for the lines from 1 up to `k` of `lines`. */
  lemma StepAt(lines: seq<string>, k: nat)
    requires 1 <= k < |lines|
    ensures Kept(lines[1..k + 1]) == Kept(lines[1..k]) + (if HasMarker(lines[k]) then [] else [lines[k]])
    ensures CharCount(lines[1..k + 1]) == CharCount(lines[1..k]) + |lines[k]| + 1
    ensures StartOffset(lines[1..k + 1]) ==
      if IsStart(lines[k]) then CharCount(Kept(lines[1..k])) else StartOffset(lines[1..k])
  {
    assert lines[1..k + 1] == lines[1..k] + [lines[k]];
    Step(lines[1..k], lines[k]);
  }

  /** Filtering commutes with concatenation, so kept lines stay in their order. */
  lemma {:induction false} KeptAppend(a: seq<string>, b: seq<string>)
    ensures Kept(a + b) == Kept(a) + Kept(b)
    decreases |b|
  {
    if |b| > 0 {
      var b' := b[..|b| - 1];
      assert (a + b)[..|a + b| - 1] == a + b';
      KeptAppend(a, b');
    } else {
      assert a + b == a;
    }
  }

  /** A line is kept exactly when it is one of the lines and carries no
      marker, whatever its directive. */
  lemma {:induction false} KeptExactly(ls: seq<string>)
    ensures forall l :: l in Kept(ls) <==> l in ls && !HasMarker(l)
    decreases |ls|
  {
    if |ls| > 0 {
      var init := ls[..|ls| - 1];
      KeptExactly(init);
      assert ls == init + [ls[|ls| - 1]];
    }
  }

  /** The count of a non-empty list of lines is one more than the length of
      their join: the join leaves out the last newline. */
  lemma {:induction false} CharCountJoin(ls: seq<string>)
    requires |ls| >= 1
    ensures CharCount(ls) == |Join(ls)| + 1
    decreases |ls|
  {
    var n := |ls|;
    if n > 1 {
      CharCountJoin(ls[..n - 1]);
      assert ls == ls[..n - 1] + [ls[n - 1]];
      JoinAppend(ls[..n - 1], [ls[n - 1]]);
    }
  }

  /** Without a `start` directive the offset is 0. */
  lemma {:induction false} NoStartOffset(ls: seq<string>)
    requires forall k :: 0 <= k < |ls| ==> !IsStart(ls[k])
    ensures StartOffset(ls) == 0
    decreases |ls|
  {
    if |ls| > 0 {
      NoStartOffset(ls[..|ls| - 1]);
    }
  }

  /** With `start` directives, the last one decides: the offset counts the
      kept lines before it, each with its newline. */
  lemma {:induction false} LastStartOffset(ls: seq<string>, j: nat)
    requires j < |ls| && IsStart(ls[j])
    requires forall k :: j < k < |ls| ==> !IsStart(ls[k])
    ensures StartOffset(ls) == CharCount(Kept(ls[..j]))
    decreases |ls|
  {
    var n := |ls|;
    if j < n - 1 {
      assert ls[..n - 1][..j] == ls[..j];
      LastStartOffset(ls[..n - 1], j);
    }
  }

  /** The offset is where, in the code, the first kept line after the last
      `start` directive begins. */
  lemma StartBeginsLine(ls: seq<string>, j: nat)
    requires j < |ls| && IsStart(ls[j])
    requires forall k :: j < k < |ls| ==> !IsStart(ls[k])
    requires Kept(ls[j + 1..]) != []
    ensures StartOffset(ls) <= |Join(Kept(ls))|
    ensures Join(Kept(ls))[StartOffset(ls)..] == Join(Kept(ls[j + 1..]))
  {
    LastStartOffset(ls, j);
    KeptAt(ls, j);
    JoinFrom(Kept(ls[..j]), Kept(ls[j + 1..]));
  }

  /** A marked line splits the kept lines into those before and after it. */
  lemma KeptAround(pre: seq<string>, x: string, post: seq<string>)
    requires HasMarker(x)
    ensures Kept(pre + [x] + post) == Kept(pre) + Kept(post)
  {
    KeptAppend(pre + [x], post);
    Step(pre, x);
  }

  lemma {:induction false} KeptAt(ls: seq<string>, j: nat)
    requires j < |ls| && HasMarker(ls[j])
    ensures Kept(ls) == Kept(ls[..j]) + Kept(ls[j + 1..])
    decreases |ls|
  {
    var n := |ls|;
    if j == n - 1 {
      assert ls[j + 1..] == [];
    } else {
      var init := ls[..n - 1];
      assert init[..j] == ls[..j];
      assert init[j + 1..] == ls[j + 1..n - 1];
      KeptAt(init, j);
      var post := ls[j + 1..];
      assert post[..|post| - 1] == ls[j + 1..n - 1];
      assert post[|post| - 1] == ls[n - 1];
    }
  }

  /** In the join of `a + b`, the join of `b` starts at the count of `a`. */
  lemma JoinFrom(a: seq<string>, b: seq<string>)
    requires b != []
    ensures CharCount(a) <= |Join(a + b)|
    ensures Join(a + b)[CharCount(a)..] == Join(b)
  {
    var code := Join(a + b);
    if a == [] {
      assert a + b == b;
      assert code[0..] == code;
    } else {
      JoinAppend(a, b);
      CharCountJoin(a);
      var ja := Join(a);
      assert code == ja + "\n" + Join(b);
      assert code[|ja| + 1..] == Join(b);
    }
  }

  /** When the file has more than one line and its last line carries no
      marker, the code ends with the sentinel. */
  lemma EndsWithSentinel(raw: string)
    requires |Lines(raw)| >= 2 && !HasMarker(Lines(raw)[|Lines(raw)| - 1])
    ensures var code := Join(Kept(Lines(raw)[1..]));
      |code| >= 1 && code[|code| - 1] == Sentinel
  {
    var lines := Lines(raw);
    var last := lines[|lines| - 1];
    LastLineEndsWithSentinel(raw);
    var rest := lines[1..];
    assert rest[|rest| - 1] == last;
    KeptEndsWith(rest);
    var kept := Kept(rest);
    JoinEndsWith(kept);
    var code := Join(kept);
    assert code[|code| - 1] == code[|code| - |last|..][|last| - 1];
  }

  /** The last line of the file ends with the sentinel. */
  lemma LastLineEndsWithSentinel(raw: string)
    ensures var last := Lines(raw)[|Lines(raw)| - 1];
      |last| >= 1 && last[|last| - 1] == Sentinel
  {
    var s := raw + [Sentinel];
    var last := Lines(raw)[|Lines(raw)| - 1];
    LastPiece(s);
    assert s[|s| - 1] == Sentinel;
    assert s[|s| - |last|..][|last| - 1] == s[|s| - 1];
  }

  /** A last line without a marker is the last kept line. */
  lemma KeptEndsWith(ls: seq<string>)
    requires |ls| >= 1 && !HasMarker(ls[|ls| - 1])
    ensures |Kept(ls)| >= 1 && Kept(ls)[|Kept(ls)| - 1] == ls[|ls| - 1]
  {
  }

  /** A join ends with its last line. */
  lemma JoinEndsWith(ls: seq<string>)
    requires |ls| >= 1
    ensures |ls[|ls| - 1]| <= |Join(ls)| && Join(ls)[|Join(ls)| - |ls[|ls| - 1]|..] == ls[|ls| - 1]
  {
    var n := |ls|;
    if n > 1 {
      JoinAppend(ls[..n - 1], [ls[n - 1]]);
      assert ls[..n - 1] + [ls[n - 1]] == ls;
    }
  }

  /** The render mode is the text before the first newline of the file (all
      of it, with the sentinel, when there is no newline), stripped of its
      markers; nothing of that line reaches the code. */
  lemma ModeIsFirstLine(raw: string)
    ensures '\n' !in raw ==> Lines(raw) == [raw + [Sentinel]]
    ensures forall k :: 0 <= k < |raw| && raw[k] == '\n' && '\n' !in raw[..k] ==>
      Lines(raw)[0] == raw[..k]
  {
    var s := raw + [Sentinel];
    if '\n' !in raw {
      SplitWithoutNewline(s);
    }
    FirstPiece(s);
    var first := Lines(raw)[0];
    forall k | 0 <= k < |raw| && raw[k] == '\n' && '\n' !in raw[..k]
      ensures first == raw[..k]
    {
      assert forall i :: 0 <= i < |first| ==> first[i] == s[i];
      assert s[k] == '\n';
      assert |first| <= k;
      assert forall i :: 0 <= i < k ==> raw[..k][i] == s[i];
      assert |first| >= k;
      assert first == s[..|first|];
    }
  }

  /** The example of a two-line file whose first line selects animation: its
      lines, and the mode its first line yields. */
  lemma AnimateExampleLines()
    ensures Lines("# !!animate\nprint(1)\n") == ["# !!animate", "print(1)", [Sentinel]]
  {
    var tail := "print(1)\n" + [Sentinel];
    assert "# !!animate\nprint(1)\n" + [Sentinel] == "# !!animate" + "\n" + tail;
    assert tail == "print(1)" + "\n" + [Sentinel];
    SplitWithoutNewline([Sentinel]);
    SplitLine("print(1)", [Sentinel]);
    SplitLine("# !!animate", tail);
  }

  lemma AnimateExampleMode()
    ensures Remove("# !!animate", Marker) == "animate"
  {
    assert "# !!animate" == Marker + "animate";
    forall j: nat | j <= 7 ensures !OccursAt(Marker, "animate", j) {
      if j + 4 <= 7 {
        assert "animate"[j..j + 4][0] == "animate"[j];
      }
    }
    RemoveLeading(Marker, "animate");
  }

  /** The same file's code and start offset: the code line and the sentinel
      line, joined, with typing starting at the beginning. */
  lemma AnimateExampleCode()
    ensures Join(Kept(["print(1)", [Sentinel]])) == "print(1)\n" + [Sentinel]
    ensures StartOffset(["print(1)", [Sentinel]]) == 0
  {
    var ls := ["print(1)", [Sentinel]];
    forall j: nat | j <= 8 ensures !OccursAt(Marker, "print(1)", j) {
      if j + 4 <= 8 {
        assert "print(1)"[j..j + 4][0] == "print(1)"[j];
      }
    }
    assert !HasMarker("print(1)");
    assert !HasMarker([Sentinel]);
    Step([], "print(1)");
    Step(["print(1)"], [Sentinel]);
    assert ["print(1)"] + [[Sentinel]] == ls;
  }

  // ---------------------------------------------------------------------------
  // TypeStream.animate, final_frame and run

  /** The skip rule of `animate`: the last line of the typed prefix is
      non-empty and made of spaces only. */
  predicate Skip(prefix: string)
  {
    var pieces := Split(prefix);
    var last := pieces[|pieces| - 1];
    last != "" && forall k :: 0 <= k < |last| ==> last[k] == ' '
  }

  /** `j` begins a line of `p`. */
  predicate LineStart(p: string, j: nat)
    requires j <= |p|
  {
    j == 0 || p[j - 1] == '\n'
  }

  /** From `j` on, `p` holds only spaces. */
  predicate SpacesFrom(p: string, j: nat)
    requires j <= |p|
  {
    forall k :: j <= k < |p| ==> p[k] == ' '
  }

  /** A prefix is skipped exactly when it ends in a non-empty run of spaces
      that starts a line. */
  lemma SkipIff(p: string)
    ensures Skip(p) <==> exists j: nat :: j < |p| && LineStart(p, j) && SpacesFrom(p, j)
  {
    var pieces := Split(p);
    var last := pieces[|pieces| - 1];
    LastPiece(p);
    var j0 := |p| - |last|;
    assert forall k :: j0 <= k < |p| ==> p[k] == last[k - j0];
    if Skip(p) {
      assert j0 < |p| && LineStart(p, j0) && SpacesFrom(p, j0);
    }
    if exists j: nat :: j < |p| && LineStart(p, j) && SpacesFrom(p, j) {
      var j: nat :| j < |p| && LineStart(p, j) && SpacesFrom(p, j);
      assert j == j0;
    }
  }

  /** Never skipped: the empty prefix, and a prefix whose last character is
      not a space (a newline, a tab, the sentinel, ...). */
  lemma NotSkipped(p: string)
    requires |p| == 0 || p[|p| - 1] != ' '
    ensures !Skip(p)
  {
    SkipIff(p);
    assert forall j: nat :: j < |p| && LineStart(p, j) && SpacesFrom(p, j) ==> p[|p| - 1] == ' ';
  }

  /** The texts `animate` renders for the indices `lo <= i < hi`, in order:
      every prefix `code[:i]` the skip rule lets through, with the caret. */
  function Rendered(code: string, lo: nat, hi: nat): seq<string>
    requires hi <= lo || hi <= |code|
    decreases hi
  {
    if hi <= lo then []
    else Rendered(code, lo, hi - 1) + (if Skip(code[..hi - 1]) then [] else [code[..hi - 1] + [Caret]])
  }

  /** What the driver does, in order: open the writer, write the frame of a
      rendered text, release the writer, save a still image of a text; or
      fail the writer's shape assertion on the frame of a text, which ends
      `animate` before the writer is released. */
  datatype Event = Open | Write(text: string) | Release | Still(text: string) | ShapeMismatch(text: string)

  function Writes(ts: seq<string>): (es: seq<Event>)
    ensures |es| == |ts| && forall k :: 0 <= k < |ts| ==> es[k] == Write(ts[k])
  {
    seq(|ts|, k requires 0 <= k < |ts| => Write(ts[k]))
  }

  /** The renderer gives every text an image with at least one row and one
      column, the top-left pixel `pad` fills with. */
  ghost predicate RendersFrames<P>(render: string -> Utils.Image<P>)
  {
    forall t :: Utils.Valid(render(t)) && Utils.HasCorner(render(t))
  }

  /** The assertion of `VideoWriter.write` on the frame `center` makes of
      the rendered text `t`: its shape is `em_shape`. */
  predicate FitsWriter<P>(render: string -> Utils.Image<P>, ew: int, eh: int, t: string)
  {
    Utils.PaddedShape(render(t).height, render(t).width, ew, eh) == Config.EmShape(ew, eh)
  }

  /** With a canvas at least one row high, the writer takes the frame of a
      text exactly when its rendered image is at most `ew` wide. */
  lemma FitsWriterIff<P>(render: string -> Utils.Image<P>, ew: int, eh: int, t: string)
    requires eh >= 1
    ensures FitsWriter(render, ew, eh, t) <==> render(t).width <= ew
  {
  }

  /** The writer takes the frame of every text of `ts`. */
  predicate AllFit<P>(ts: seq<string>, render: string -> Utils.Image<P>, ew: int, eh: int)
  {
    forall m :: 0 <= m < |ts| ==> FitsWriter(render, ew, eh, ts[m])
  }

  /** The position of the first text whose frame the writer refuses, or the
      length of `ts` when it takes them all. */
  function FirstMisfit<P>(ts: seq<string>, render: string -> Utils.Image<P>, ew: int, eh: int): (k: nat)
    ensures k <= |ts|
    ensures forall m :: 0 <= m < k ==> FitsWriter(render, ew, eh, ts[m])
    ensures k < |ts| ==> !FitsWriter(render, ew, eh, ts[k])
    decreases |ts|
  {
    if |ts| == 0 || !FitsWriter(render, ew, eh, ts[0]) then 0
    else 1 + FirstMisfit(ts[1..], render, ew, eh)
  }

  /** The log of `animate` on code `code` starting at `startAt`: the writer
      is opened, the frames of the rendered texts are written in order up to
      the first one the writer refuses, and then either that refusal ends
      the run or, when there is none, the writer is released. */
  function AnimationLog<P>(code: string, startAt: nat, render: string -> Utils.Image<P>, ew: int, eh: int): seq<Event>
  {
    var ts := Rendered(code, startAt, |code|);
    var k := FirstMisfit(ts, render, ew, eh);
    [Open] + Writes(ts[..k]) + (if k == |ts| then [Release] else [ShapeMismatch(ts[k])])
  }

  /** `t` is what `animate` renders at some index `lo <= i < hi`: the prefix
      `code[:i]`, which the skip rule lets through, and the caret. */
  predicate RenderedAt(code: string, lo: nat, hi: nat, t: string)
  {
    lo + 1 <= |t| <= hi && |t| - 1 <= |code| &&
    t == code[..|t| - 1] + [Caret] && !Skip(code[..|t| - 1])
  }

  /** Every text of `ts` is rendered at some index `lo <= i < hi`. */
  predicate AllRenderedAt(code: string, lo: nat, hi: nat, ts: seq<string>)
  {
    forall k :: 0 <= k < |ts| ==> RenderedAt(code, lo, hi, ts[k])
  }

  /** The texts of `ts` strictly grow in length from one to the next. */
  predicate Increasing(ts: seq<string>)
  {
    forall k, m :: 0 <= k < m < |ts| ==> |ts[k]| < |ts[m]|
  }

  /** Every rendered text is a prefix `code[:i]` the skip rule lets through,
      with `lo <= i < hi`, followed by the caret; the prefixes strictly grow from
      one text to the next. */
  lemma {:induction false} RenderedSound(code: string, lo: nat, hi: nat)
    requires hi <= |code|
    ensures AllRenderedAt(code, lo, hi, Rendered(code, lo, hi))
    ensures Increasing(Rendered(code, lo, hi))
    decreases hi
  {
    if hi > lo {
      RenderedSound(code, lo, hi - 1);
      var prev := Rendered(code, lo, hi - 1);
      var p := code[..hi - 1];
      if Skip(p) {
        WidenRenderedAt(code, lo, hi, prev);
      } else {
        var t := p + [Caret];
        assert |t| == hi && t[..|t| - 1] == p;
        AppendRendered(code, lo, hi, prev, t);
      }
    }
  }

  lemma WidenRenderedAt(code: string, lo: nat, hi: nat, ts: seq<string>)
    requires hi >= 1 && AllRenderedAt(code, lo, hi - 1, ts)
    ensures AllRenderedAt(code, lo, hi, ts)
  {
    assert forall k :: 0 <= k < |ts| ==> RenderedAt(code, lo, hi - 1, ts[k]);
  }

  lemma AppendRendered(code: string, lo: nat, hi: nat, ts: seq<string>, t: string)
    requires hi >= 1 && AllRenderedAt(code, lo, hi - 1, ts) && Increasing(ts)
    requires RenderedAt(code, lo, hi, t) && |t| == hi
    ensures AllRenderedAt(code, lo, hi, ts + [t]) && Increasing(ts + [t])
  {
    WidenRenderedAt(code, lo, hi, ts);
    var us := ts + [t];
    forall k | 0 <= k < |us| ensures RenderedAt(code, lo, hi, us[k]) {
      if k < |ts| {
        assert us[k] == ts[k];
      }
    }
    forall k, m | 0 <= k < m < |us| ensures |us[k]| < |us[m]| {
      assert us[k] == ts[k];
      assert RenderedAt(code, lo, hi - 1, ts[k]);
      if m < |ts| {
        assert us[m] == ts[m];
      }
    }
  }

  /** Every prefix `code[:i]`, `lo <= i < hi`, that the skip rule lets through
      is rendered, with the caret. */
  lemma {:induction false} RenderedComplete(code: string, lo: nat, hi: nat, i: nat)
    requires hi <= |code| && lo <= i < hi && !Skip(code[..i])
    ensures code[..i] + [Caret] in Rendered(code, lo, hi)
    decreases hi
  {
    var prev := Rendered(code, lo, hi - 1);
    if i < hi - 1 {
      RenderedComplete(code, lo, hi - 1, i);
    } else {
      assert Rendered(code, lo, hi) == prev + [code[..i] + [Caret]];
    }
  }

  /** The texts rendered below an index are the first ones rendered below
      any larger index. */
  lemma {:induction false} RenderedPrefix(code: string, lo: nat, i: nat, hi: nat)
    requires i <= hi <= |code|
    ensures |Rendered(code, lo, i)| <= |Rendered(code, lo, hi)|
    ensures Rendered(code, lo, hi)[..|Rendered(code, lo, i)|] == Rendered(code, lo, i)
    decreases hi
  {
    if i < hi {
      RenderedPrefix(code, lo, i, hi - 1);
      if hi > lo {
        var prev := Rendered(code, lo, hi - 1);
        var n := |Rendered(code, lo, i)|;
        assert Rendered(code, lo, hi)[..n] == prev[..n];
      }
    }
  }

  /** FirstMisfit is the one position with every earlier frame taken and its
      own refused (or the end). */
  lemma FirstMisfitAt<P>(ts: seq<string>, render: string -> Utils.Image<P>, ew: int, eh: int, k: nat)
    requires k <= |ts|
    requires AllFit(ts[..k], render, ew, eh)
    requires k < |ts| ==> !FitsWriter(render, ew, eh, ts[k])
    ensures FirstMisfit(ts, render, ew, eh) == k
  {
    assert forall m :: 0 <= m < k ==> ts[..k][m] == ts[m];
  }

  /** The log when the writer refuses the frame of the text rendered at
      index `i`, having taken all those rendered before it. */
  lemma AbortedLog<P>(code: string, startAt: nat, i: nat, render: string -> Utils.Image<P>, ew: int, eh: int)
    requires startAt <= i < |code|
    requires Rendered(code, startAt, i + 1) == Rendered(code, startAt, i) + [code[..i] + [Caret]]
    requires !FitsWriter(render, ew, eh, code[..i] + [Caret])
    requires AllFit(Rendered(code, startAt, i), render, ew, eh)
    ensures [Open] + Writes(Rendered(code, startAt, i)) + [ShapeMismatch(code[..i] + [Caret])]
      == AnimationLog(code, startAt, render, ew, eh)
  {
    var prev := Rendered(code, startAt, i);
    var ts := Rendered(code, startAt, |code|);
    RenderedNext(code, startAt, i);
    FirstMisfitAt(ts, render, ew, eh, |prev|);
    MisfitLog(code, startAt, render, ew, eh, |prev|);
  }

  /** The text rendered at index `i` comes, among all rendered texts, right
      after those rendered before `i`. */
  lemma RenderedNext(code: string, startAt: nat, i: nat)
    requires startAt <= i < |code|
    requires Rendered(code, startAt, i + 1) == Rendered(code, startAt, i) + [code[..i] + [Caret]]
    ensures |Rendered(code, startAt, i)| < |Rendered(code, startAt, |code|)|
    ensures Rendered(code, startAt, |code|)[..|Rendered(code, startAt, i)|] == Rendered(code, startAt, i)
    ensures Rendered(code, startAt, |code|)[|Rendered(code, startAt, i)|] == code[..i] + [Caret]
  {
    var prev := Rendered(code, startAt, i);
    var ts := Rendered(code, startAt, |code|);
    RenderedPrefix(code, startAt, i + 1, |code|);
    assert ts[..|prev| + 1] == prev + [code[..i] + [Caret]];
    assert ts[..|prev|] == ts[..|prev| + 1][..|prev|];
  }

  /** The log of a run the writer stops at position `k` of the rendered texts. */
  lemma MisfitLog<P>(code: string, startAt: nat, render: string -> Utils.Image<P>, ew: int, eh: int, k: nat)
    requires k < |Rendered(code, startAt, |code|)|
    requires FirstMisfit(Rendered(code, startAt, |code|), render, ew, eh) == k
    ensures AnimationLog(code, startAt, render, ew, eh) ==
      [Open] + Writes(Rendered(code, startAt, |code|)[..k]) + [ShapeMismatch(Rendered(code, startAt, |code|)[k])]
  {
  }

  lemma NextRendered(code: string, startAt: nat, i: nat)
    requires startAt <= i < |code| && !Skip(code[..i])
    ensures Rendered(code, startAt, i + 1) == Rendered(code, startAt, i) + [code[..i] + [Caret]]
  {
  }

  /** The log when the writer takes every frame. */
  lemma CompletedLog<P>(code: string, startAt: nat, render: string -> Utils.Image<P>, ew: int, eh: int)
    requires AllFit(Rendered(code, startAt, |code|), render, ew, eh)
    ensures [Open] + Writes(Rendered(code, startAt, |code|)) + [Release]
      == AnimationLog(code, startAt, render, ew, eh)
  {
    var ts := Rendered(code, startAt, |code|);
    assert ts[..|ts|] == ts;
    FirstMisfitAt(ts, render, ew, eh, |ts|);
  }

  /** One index more: the log and the rendered texts grow together. */
  lemma RenderStep(code: string, startAt: nat, i: nat)
    requires startAt <= i < |code|
    ensures Rendered(code, startAt, i + 1) ==
      Rendered(code, startAt, i) + (if Skip(code[..i]) then [] else [code[..i] + [Caret]])
  {
  }

  lemma WritesAppend(ts: seq<string>, t: string)
    ensures Writes(ts + [t]) == Writes(ts) + [Write(t)]
  {
  }

  lemma AllFitAppend<P>(ts: seq<string>, t: string, render: string -> Utils.Image<P>, ew: int, eh: int)
    requires AllFit(ts, render, ew, eh) && FitsWriter(render, ew, eh, t)
    ensures AllFit(ts + [t], render, ew, eh)
  {
    assert forall m :: 0 <= m < |ts| ==> (ts + [t])[m] == ts[m];
  }

  /** `center` on the rendered text, then the shape assertion of
      `VideoWriter.write` on the frame it gives. */
  method WriterAccepts<P>(render: string -> Utils.Image<P>, ew: int, eh: int, text: string) returns (fits: bool)
    requires Utils.Valid(render(text)) && Utils.HasCorner(render(text))
    ensures fits <==> FitsWriter(render, ew, eh, text)
  {
    var frame := Utils.Padded(render(text), ew, eh);
    fits := (frame.height, frame.width) == Config.EmShape(ew, eh);
  }

  /** `animate`: for each index from `start_at` up to the length of the code,
      unless the skip rule holds, render the prefix with a caret, centre it
      and hand the frame to the writer, whose shape assertion may end the
      run; at the end, release the writer. */
  method Animate<P>(code: string, startAt: nat, render: string -> Utils.Image<P>, ew: int, eh: int)
    returns (log: seq<Event>)
    requires RendersFrames(render)
    ensures log == AnimationLog(code, startAt, render, ew, eh)
  {
    log := [Open];
    var i := startAt;
    ghost var ts: seq<string> := [];
    while i < |code|
      invariant i == startAt || startAt <= i <= |code|
      invariant ts == Rendered(code, startAt, i)
      invariant log == [Open] + Writes(ts) && AllFit(ts, render, ew, eh)
    {
      var sub := code[..i];
      RenderStep(code, startAt, i);
      if !Skip(sub) {
        var text := sub + [Caret];
        var fits := WriterAccepts(render, ew, eh, text);
        if !fits {
          AbortedLog(code, startAt, i, render, ew, eh);
          log := log + [ShapeMismatch(text)];
          return;
        }
        WritesAppend(ts, text);
        AllFitAppend(ts, text, render, ew, eh);
        log := log + [Write(text)];
        ts := ts + [text];
      }
      i := i + 1;
    }
    assert ts == Rendered(code, startAt, |code|);
    CompletedLog(code, startAt, render, ew, eh);
    log := log + [Release];
  }

  /** The writer is opened first and never again; every event between the
      first and the last writes a rendered text the writer takes, in order.
      The last event is the release exactly when the writer takes every
      frame; otherwise it is the refusal of the next rendered text, and the
      writer is never released. The release, when it happens, happens once.
      No frame is written when the start offset is at or past the end. */
  lemma AnimationLogShape<P>(code: string, startAt: nat, render: string -> Utils.Image<P>, ew: int, eh: int)
    ensures var log := AnimationLog(code, startAt, render, ew, eh);
      var ts := Rendered(code, startAt, |code|);
      |log| >= 2 && |log| <= |ts| + 2 && log[0] == Open && Open !in log[1..] &&
      Release !in log[..|log| - 1] &&
      (forall k :: 1 <= k < |log| - 1 ==> log[k] == Write(ts[k - 1]) && FitsWriter(render, ew, eh, ts[k - 1])) &&
      (log[|log| - 1] == Release <==> forall t :: t in ts ==> FitsWriter(render, ew, eh, t)) &&
      (log[|log| - 1] != Release ==>
        log[|log| - 1] == ShapeMismatch(ts[|log| - 2]) && !FitsWriter(render, ew, eh, ts[|log| - 2]))
    ensures startAt >= |code| ==> AnimationLog(code, startAt, render, ew, eh) == [Open, Release]
  {
    var log := AnimationLog(code, startAt, render, ew, eh);
    var ts := Rendered(code, startAt, |code|);
    var k := FirstMisfit(ts, render, ew, eh);
    assert |log| == k + 2;
    assert forall m :: 1 <= m < |log| - 1 ==> log[m] == Write(ts[m - 1]);
    assert log[1..][..k] == Writes(ts[..k]);
    if k < |ts| {
      assert ts[k] in ts;
    }
  }

  /** With a canvas at least one row high, `animate` reaches its release
      exactly when every rendered text yields an image at most `ew` wide. */
  lemma AnimationReleases<P>(code: string, startAt: nat, render: string -> Utils.Image<P>, ew: int, eh: int)
    requires eh >= 1
    ensures var log := AnimationLog(code, startAt, render, ew, eh);
      log[|log| - 1] == Release <==>
      forall t :: t in Rendered(code, startAt, |code|) ==> render(t).width <= ew
  {
    AnimationLogShape(code, startAt, render, ew, eh);
    forall t ensures FitsWriter(render, ew, eh, t) <==> render(t).width <= ew {
      FitsWriterIff(render, ew, eh, t);
    }
  }

  /** `final_frame`: one still image of the whole code, without a caret. */
  method FinalFrame(code: string) returns (log: seq<Event>)
    ensures log == [Still(code)]
  {
    log := [Still(code)];
  }

  datatype RunError = KeyError(mode: string)
  datatype Result<T> = Ok(value: T) | Err(error: RunError)

  /** `run`: look the render mode up among `image` and `animate`; any other
      mode fails the lookup. */
  method Run<P>(buf: CodeBuffer, render: string -> Utils.Image<P>, ew: int, eh: int)
    returns (r: Result<seq<Event>>)
    requires RendersFrames(render)
    ensures buf.mode == "image" ==> r == Ok([Still(buf.code)])
    ensures buf.mode == "animate" ==> r == Ok(AnimationLog(buf.code, buf.startAt, render, ew, eh))
    ensures buf.mode != "image" && buf.mode != "animate" ==> r == Err(KeyError(buf.mode))
  {
    if buf.mode == "image" {
      var log := FinalFrame(buf.code);
      r := Ok(log);
    } else if buf.mode == "animate" {
      var log := Animate(buf.code, buf.startAt, render, ew, eh);
      r := Ok(log);
    } else {
      r := Err(KeyError(buf.mode));
    }
  }
}
