/** glworker.cpp, `GenerateFragmentShader`: the text of a shader that blends n layers front to back, and what
    running that text computes. Arithmetic is exact. */
module Blend {

  datatype Rgb = Rgb(r: real, g: real, b: real) {

    function Plus(that: Rgb): Rgb {
      Rgb(r + that.r, g + that.g, b + that.b)
    }

    function Times(k: real): Rgb {
      Rgb(r * k, g * k, b * k)
    }

    predicate Within(low: real, high: real) {
      low <= r <= high && low <= g <= high && low <= b <= high
    }
  }

  const Black := Rgb(0.0, 0.0, 0.0)

  /** What one layer brings to a fragment: its texel, and its two uniforms. */
  datatype Sample = Sample(rgb: Rgb, a: real, alpha: real, premult: real)

  function Max(x: real, y: real): real {
    if x < y then y else x
  }

  /** What the layer adds where nothing covers it. */
  function Light(s: Sample): Rgb {
    s.rgb.Times(Max(s.a, s.premult)).Times(s.alpha)
  }

  /** How much of what is behind it the layer hides. */
  function Hides(s: Sample): real {
    Part(s.a, s.alpha)
  }

  function Part(x: real, y: real): real {
    x * y
  }

  // ---- The shader's text ----

  /** The lines of the shader's main function, less its declarations. */
  datatype Line =
    | IfVisible
    | Texture(i: nat)
    | Multiply(i: nat)
    | Accumulate(i: nat)
    | Cover(i: nat)
    | Close
    | Output

  /** The lines for layer i. */
  function LayerLines(i: nat): seq<Line> {
    (if i > 0 then [IfVisible] else []) + [Texture(i), Multiply(i), Accumulate(i), Cover(i)]
  }

  function LinesFor(n: nat): seq<Line> {
    if n == 0 then [] else LinesFor(n - 1) + LayerLines(n - 1)
  }

  function Closes(n: nat): (c: seq<Line>)
    ensures |c| == n
  {
    seq(n, _ => Close)
  }

  /** The variables of the running shader. */
  datatype State = State(color: Rgb, alphaCover: real, texSample: Sample, multRgb: Rgb, out: (Rgb, real))

  const Cutoff: real := 0.5 / 255.0

  /** One line, run in a branch that is taken. */
  function Step(line: Line, layers: seq<Sample>, st: State): State {
    match line
    case Texture(i) => if i < |layers| then st.(texSample := layers[i]) else st
    case Multiply(i) =>
      if i < |layers| then st.(multRgb := st.texSample.rgb.Times(Max(st.texSample.a, layers[i].premult))) else st
    case Accumulate(i) =>
      if i < |layers| then st.(color := st.color.Plus(st.multRgb.Times(layers[i].alpha).Times(st.alphaCover))) else st
    case Cover(i) =>
      if i < |layers| then st.(alphaCover := st.alphaCover * (1.0 - st.texSample.a * layers[i].alpha)) else st
    case Output => st.(out := (st.color, 1.0 - st.alphaCover))
    case _ => st
  }

  /** Runs the text. `skip` counts the open braces of the branch that is being skipped. */
  function Exec(lines: seq<Line>, layers: seq<Sample>, st: State, skip: nat): (State, nat)
    decreases |lines|
  {
    if lines == [] then (st, skip)
    else match lines[0]
      case IfVisible =>
        Exec(lines[1..], layers, st, if skip > 0 then skip + 1 else if st.alphaCover > Cutoff then 0 else 1)
      case Close => Exec(lines[1..], layers, st, if skip > 0 then skip - 1 else 0)
      case line => Exec(lines[1..], layers, if skip > 0 then st else Step(line, layers, st), skip)
  }

  lemma {:induction false} ExecJoined(p: seq<Line>, q: seq<Line>, layers: seq<Sample>, st: State, skip: nat)
    ensures Exec(p + q, layers, st, skip)
         == var mid := Exec(p, layers, st, skip); Exec(q, layers, mid.0, mid.1)
    decreases |p|
  {
    hide Step;
    if p == [] {
      assert p + q == q;
    } else {
      assert (p + q)[1..] == p[1..] + q;
      var next := match p[0]
        case IfVisible => (st, if skip > 0 then skip + 1 else if st.alphaCover > Cutoff then 0 else 1)
        case Close => (st, if skip > 0 then skip - 1 else 0)
        case line => (if skip > 0 then st else Step(line, layers, st), skip);
      ExecJoined(p[1..], q, layers, next.0, next.1);
    }
  }

  // ---- What it computes ----

  /** Colour and remaining cover after a layer. */
  datatype Blended = Blended(color: Rgb, cover: real) {
    function Under(s: Sample): Blended {
      Blended(color.Plus(Light(s).Times(cover)), Part(cover, 1.0 - Hides(s)))
    }
  }

  const Clear := Blended(Black, 1.0)

  /** Front to back over every layer. */
  function FrontToBack(layers: seq<Sample>): Blended {
    if layers == [] then Clear else FrontToBack(layers[..|layers| - 1]).Under(layers[|layers| - 1])
  }

  /** Front to back until the cover is down to the cutoff; the first layer is always drawn. */
  function Drawn(layers: seq<Sample>): (n: nat)
    ensures n <= |layers|
  {
    if layers == [] then 0
    else
      var n := Drawn(layers[..|layers| - 1]);
      if n < |layers| - 1 then n
      else if |layers| == 1 || FrontToBack(layers[..|layers| - 1]).cover > Cutoff then |layers|
      else n
  }

  const Start := State(Black, 1.0, Sample(Black, 0.0, 0.0, 0.0), Black, (Black, 0.0))

  lemma LayerRuns(layers: seq<Sample>, i: nat, st: State)
    requires i < |layers| && (i == 0 || st.alphaCover > Cutoff)
    ensures var done := Exec(LayerLines(i), layers, st, 0);
            && done.1 == 0
            && Blended(done.0.color, done.0.alphaCover) == Blended(st.color, st.alphaCover).Under(layers[i])
  {
    var body := [Texture(i), Multiply(i), Accumulate(i), Cover(i)];
    if i > 0 {
      assert LayerLines(i)[1..] == body;
    } else {
      assert LayerLines(i) == body;
    }
    BodyRuns(layers, i, st);
  }

  lemma BodyRuns(layers: seq<Sample>, i: nat, st: State)
    requires i < |layers|
    ensures var done := Exec([Texture(i), Multiply(i), Accumulate(i), Cover(i)], layers, st, 0);
            && done.1 == 0
            && Blended(done.0.color, done.0.alphaCover) == Blended(st.color, st.alphaCover).Under(layers[i])
  {
    hide *;
    FourLines(layers, Texture(i), Multiply(i), Accumulate(i), Cover(i), st, 0);
    StepsBlend(layers, i, st);
  }

  lemma StepsBlend(layers: seq<Sample>, i: nat, st: State)
    requires i < |layers|
    ensures var done := Step(Cover(i), layers, Step(Accumulate(i), layers,
                                                    Step(Multiply(i), layers, Step(Texture(i), layers, st))));
            Blended(done.color, done.alphaCover) == Blended(st.color, st.alphaCover).Under(layers[i])
  {
    var s := layers[i];
    var s1 := Step(Texture(i), layers, st);
    var s2 := Step(Multiply(i), layers, s1);
    var s3 := Step(Accumulate(i), layers, s2);
    assert s2.multRgb == s.rgb.Times(Max(s.a, s.premult));
    assert s3.color == st.color.Plus(Light(s).Times(st.alphaCover));
    hide Max, Rgb.Times, Rgb.Plus;
  }

  /** Four lines without braces. */
  lemma FourLines(layers: seq<Sample>, a: Line, b: Line, c: Line, d: Line, st: State, skip: nat)
    requires forall line <- [a, b, c, d] :: !line.IfVisible? && !line.Close?
    ensures Exec([a, b, c, d], layers, st, skip)
         == (if skip > 0 then st else Step(d, layers, Step(c, layers, Step(b, layers, Step(a, layers, st)))), skip)
  {
    hide Step;
    var run := (line: Line, s: State) => if skip > 0 then s else Step(line, layers, s);
    assert !a.IfVisible? && !b.IfVisible? && !c.IfVisible? && !d.IfVisible?;
    var none: seq<Line> := [];
    ExecFirst(layers, a, [b, c, d], st, skip);
    ExecFirst(layers, b, [c, d], run(a, st), skip);
    ExecFirst(layers, c, [d], run(b, run(a, st)), skip);
    ExecFirst(layers, d, none, run(c, run(b, run(a, st))), skip);
    assert [a] + [b, c, d] == [a, b, c, d];
    assert [b] + [c, d] == [b, c, d];
    assert [c] + [d] == [c, d];
    assert [d] + none == [d];
  }

  lemma ExecFirst(layers: seq<Sample>, line: Line, rest: seq<Line>, st: State, skip: nat)
    requires !line.IfVisible? && !line.Close?
    ensures Exec([line] + rest, layers, st, skip)
         == Exec(rest, layers, if skip > 0 then st else Step(line, layers, st), skip)
  {
    hide Step;
    assert ([line] + rest)[1..] == rest;
  }

  lemma LayerSkipped(layers: seq<Sample>, i: nat, st: State, skip: nat)
    requires i > 0 && (skip > 0 || st.alphaCover <= Cutoff)
    ensures Exec(LayerLines(i), layers, st, skip) == (st, skip + 1)
  {
    assert LayerLines(i)[1..] == [Texture(i), Multiply(i), Accumulate(i), Cover(i)];
    FourLines(layers, Texture(i), Multiply(i), Accumulate(i), Cover(i), st, skip + 1);
  }

  lemma {:induction false} LayersRun(layers: seq<Sample>, n: nat)
    requires n <= |layers|
    ensures var done := Exec(LinesFor(n), layers, Start, 0); var d := Drawn(layers[..n]);
            && done.1 == n - d
            && Blended(done.0.color, done.0.alphaCover) == FrontToBack(layers[..d])
  {
    if n > 0 {
      var d := Drawn(layers[..n - 1]);
      var mid := Exec(LinesFor(n - 1), layers, Start, 0);
      LayersRun(layers, n - 1);
      ExecJoined(LinesFor(n - 1), LayerLines(n - 1), layers, Start, 0);
      assert layers[..n][..n - 1] == layers[..n - 1];
      if d == n - 1 && (n == 1 || mid.0.alphaCover > Cutoff) {
        LayerRuns(layers, n - 1, mid.0);
      } else {
        LayerSkipped(layers, n - 1, mid.0, mid.1);
      }
    }
  }

  lemma {:induction false} ClosesRun(n: nat, layers: seq<Sample>, st: State, skip: nat)
    requires skip <= n
    ensures Exec(Closes(n), layers, st, skip) == (st, 0)
  {
    if n > 0 {
      assert Closes(n)[1..] == Closes(n - 1);
      ClosesRun(n - 1, layers, st, if skip > 0 then skip - 1 else 0);
    }
  }

  lemma {:induction false} FirstIsDrawn(layers: seq<Sample>)
    requires layers != []
    ensures Drawn(layers) >= 1
  {
    if |layers| > 1 { FirstIsDrawn(layers[..|layers| - 1]); }
  }

  /** The generator, and what its text does when run: the braces balance, and the colour that comes out is that of
      the layers down to the cutoff. */
  method GenerateFragmentShader(layerCount: nat) returns (lines: seq<Line>)
    requires layerCount > 0
    ensures forall layers: seq<Sample> | |layers| == layerCount ::
              var b := FrontToBack(layers[..Drawn(layers)]);
              Exec(lines, layers, Start, 0).1 == 0 && Exec(lines, layers, Start, 0).0.out == (b.color, 1.0 - b.cover)
  {
    lines := [];
    for i := 0 to layerCount
      invariant lines == LinesFor(i)
    {
      if i > 0 {
        lines := lines + [IfVisible];
      }
      lines := lines + [Texture(i), Multiply(i), Accumulate(i), Cover(i)];
    }
    for i := 0 to layerCount - 1
      invariant lines == LinesFor(layerCount) + Closes(i)
    {
      lines := lines + [Close];
    }
    lines := lines + [Output];
    forall layers: seq<Sample> | |layers| == layerCount
      ensures var b := FrontToBack(layers[..Drawn(layers)]);
              Exec(lines, layers, Start, 0).1 == 0 && Exec(lines, layers, Start, 0).0.out == (b.color, 1.0 - b.cover)
    {
      TextRuns(lines, layers);
    }
  }

  lemma TextRuns(lines: seq<Line>, layers: seq<Sample>)
    requires layers != [] && lines == LinesFor(|layers|) + Closes(|layers| - 1) + [Output]
    ensures var b := FrontToBack(layers[..Drawn(layers)]);
            Exec(lines, layers, Start, 0).1 == 0 && Exec(lines, layers, Start, 0).0.out == (b.color, 1.0 - b.cover)
  {
    var n := |layers|;
    var mid := Exec(LinesFor(n), layers, Start, 0);
    assert layers[..n] == layers;
    LayersRun(layers, n);
    FirstIsDrawn(layers);
    ClosesRun(n - 1, layers, mid.0, mid.1);
    ExecJoined(LinesFor(n), Closes(n - 1), layers, Start, 0);
    ExecJoined(LinesFor(n) + Closes(n - 1), [Output], layers, Start, 0);
  }
}
