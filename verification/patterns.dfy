/** The pattern-list builder of patterns.go: a comma-separated configuration string
    becomes an ordered list of compiled expressions, all or nothing. */
module Patterns {
  import opened Wrappers
  import opened Text
  import opened Regex
  import opened Seqs

  /** The error `regexp.Compile` reports, naming the source it refused. */
  datatype CompileError = InvalidPattern(pattern: string)

  /** A segment that is empty once trimmed; such segments are skipped. */
  predicate Blank(segment: string) {
    TrimSpace(segment) == []
  }

  /** The trimmed non-blank segments, in input order: the reference list of what
      the builder compiles. */
  function Fields(segments: seq<string>): (fs: seq<string>)
    ensures |fs| <= |segments|
  {
    FlatMapShort(Field, segments);
    FlatMap(Field, segments)
  }

  /** What one segment contributes: nothing when blank, else its trimmed text. */
  function Field(segment: string): seq<string> {
    if Blank(segment) then [] else [TrimSpace(segment)]
  }

  /** A usable source: non-empty, and neither starting nor ending with white space. */
  predicate Clean(source: string) {
    source != [] && !IsSpace(source[0]) && !IsSpace(source[|source| - 1])
  }

  /** Every field is clean. */
  lemma FieldsAreClean(segments: seq<string>)
    ensures forall k :: 0 <= k < |Fields(segments)| ==> Clean(Fields(segments)[k])
  {
    forall i, k | 0 <= i < |segments| && 0 <= k < |Field(segments[i])| ensures Clean(Field(segments[i])[k]) {
      FieldIsClean(segments[i]);
    }
    FlatMapAll(Field, segments, Clean);
  }

  lemma FieldIsClean(segment: string)
    ensures Field(segment) == [] || (|Field(segment)| == 1 && Clean(Field(segment)[0]))
  {
  }

  /** Fields of a concatenation are the concatenated fields: order is kept and
      blank segments vanish wherever they are. */
  lemma FieldsAppend(a: seq<string>, b: seq<string>)
    ensures Fields(a + b) == Fields(a) + Fields(b)
  {
    FlatMapAppend(Field, a, b);
  }

  /** A list of blank segments has no fields. */
  lemma {:induction false} FieldsOfBlanks(segments: seq<string>)
    requires forall j :: 0 <= j < |segments| ==> AllSpace(segments[j])
    ensures Fields(segments) == []
    decreases |segments|
  {
    if |segments| > 0 {
      FieldsOfBlanks(segments[1..]);
    }
  }

  /** A character no segment holds is in no field. */
  lemma FieldsAvoid(segments: seq<string>, c: char)
    requires forall j :: 0 <= j < |segments| ==> c !in segments[j]
    ensures forall k :: 0 <= k < |Fields(segments)| ==> c !in Fields(segments)[k]
  {
    forall j | 0 <= j < |segments| && c in TrimSpace(segments[j]) ensures false {
      TrimSpaceKeepsCharacters(segments[j], c);
    }
    FlatMapAll(Field, segments, t => c !in t);
  }

  /** Every source of the list compiles. */
  predicate AllValid(engine: Engine, sources: seq<string>) {
    forall k :: 0 <= k < |sources| ==> engine.valid(sources[k])
  }

  /** `p` is the first source of the list that does not compile. */
  ghost predicate FirstInvalid(engine: Engine, sources: seq<string>, p: string) {
    exists k :: 0 <= k < |sources| && sources[k] == p && !engine.valid(p) && AllValid(engine, sources[..k])
  }

  /** The list holds, position by position, the compiled form of each source. */
  predicate CompiledFrom(ps: seq<Regexp>, sources: seq<string>) {
    |ps| == |sources| && forall k :: 0 <= k < |sources| ==> ps[k] == Compiled(sources[k])
  }

  lemma ConsAllValid(engine: Engine, t: string, tail: seq<string>)
    ensures AllValid(engine, [t] + tail) <==> engine.valid(t) && AllValid(engine, tail)
  {
    var fs := [t] + tail;
    if engine.valid(t) && AllValid(engine, tail) {
      forall k | 0 <= k < |fs| ensures engine.valid(fs[k]) {
        if k > 0 { assert fs[k] == tail[k - 1]; }
      }
    }
    if AllValid(engine, fs) {
      assert engine.valid(fs[0]);
      forall k | 0 <= k < |tail| ensures engine.valid(tail[k]) {
        assert fs[k + 1] == tail[k];
      }
    }
  }

  lemma ConsFirstInvalid(engine: Engine, t: string, tail: seq<string>, p: string)
    requires engine.valid(t) && FirstInvalid(engine, tail, p)
    ensures FirstInvalid(engine, [t] + tail, p)
  {
    var fs := [t] + tail;
    var k :| 0 <= k < |tail| && tail[k] == p && !engine.valid(p) && AllValid(engine, tail[..k]);
    assert fs[k + 1] == p;
    assert fs[..k + 1] == [t] + tail[..k];
    ConsAllValid(engine, t, tail[..k]);
  }

  lemma HeadFirstInvalid(engine: Engine, t: string, tail: seq<string>)
    requires !engine.valid(t)
    ensures FirstInvalid(engine, [t] + tail, t)
  {
    assert ([t] + tail)[0] == t;
    assert ([t] + tail)[..0] == [];
  }

  lemma ConsCompiledFrom(ps: seq<Regexp>, t: string, tail: seq<string>)
    requires CompiledFrom(ps, tail)
    ensures CompiledFrom([Compiled(t)] + ps, [t] + tail)
  {
    var qs, fs := [Compiled(t)] + ps, [t] + tail;
    forall k | 0 <= k < |fs| ensures qs[k] == Compiled(fs[k]) {
      if k > 0 { assert qs[k] == ps[k - 1] && fs[k] == tail[k - 1]; }
    }
  }

  /** The loop of `ConvertToRegexPatterns` over the split segments: trim, skip
      blanks, compile in order, and stop at the first source that fails. */
  function CompileSegments(engine: Engine, segments: seq<string>): (r: Result<seq<Regexp>, CompileError>)
    ensures r.Success? <==> AllValid(engine, Fields(segments))
    ensures r.Success? ==> CompiledFrom(r.value, Fields(segments))
    ensures r.Failure? ==> FirstInvalid(engine, Fields(segments), r.error.pattern)
    decreases |segments|
  {
    if |segments| == 0 then Success([])
    else
      var t := TrimSpace(segments[0]);
      var tail := Fields(segments[1..]);
      if t == [] then
        assert Fields(segments) == tail;
        CompileSegments(engine, segments[1..])
      else
        assert Fields(segments) == [t] + tail;
        ConsAllValid(engine, t, tail);
        if !engine.valid(t) then
          HeadFirstInvalid(engine, t, tail);
          Failure(InvalidPattern(t))
        else match CompileSegments(engine, segments[1..])
          case Success(rest) =>
            ConsCompiledFrom(rest, t, tail);
            Success([Compiled(t)] + rest)
          case Failure(e) =>
            ConsFirstInvalid(engine, t, tail, e.pattern);
            Failure(e)
  }

  /** The trimmed non-blank comma-separated segments of a configuration string. */
  function ConfigFields(input: string): seq<string> {
    Fields(Split(input, ','))
  }

  /** Go's `ConvertToRegexPatterns(input)`. On success the list holds, in order, one
      compiled expression per non-blank segment, with its source trimmed; it is all
      or nothing: the call fails exactly when some non-blank segment does not
      compile, and then reports the first such segment. */
  function ConvertToRegexPatterns(engine: Engine, input: string): (r: Result<seq<Regexp>, CompileError>)
    ensures r.Success? <==> AllValid(engine, ConfigFields(input))
    ensures r.Success? ==> AllCompiled(r.value) && |r.value| == |ConfigFields(input)| &&
                           forall k :: 0 <= k < |r.value| ==> r.value[k].expr == ConfigFields(input)[k]
    ensures r.Failure? ==> exists k :: 0 <= k < |ConfigFields(input)| && ConfigFields(input)[k] == r.error.pattern &&
                                       !engine.valid(r.error.pattern) && AllValid(engine, ConfigFields(input)[..k])
  {
    CompileSegments(engine, Split(input, ','))
  }

  /** The empty configuration builds the empty list, whatever the engine. */
  lemma EmptyInput(engine: Engine)
    ensures ConvertToRegexPatterns(engine, "") == Success([])
  {
    assert Split("", ',') == [""];
    assert TrimSpace("") == [];
  }

  /** A configuration made of commas and white space only builds the empty list. */
  lemma {:induction false} BlankInput(engine: Engine, input: string)
    requires forall k :: 0 <= k < |input| ==> input[k] == ',' || IsSpace(input[k])
    ensures ConvertToRegexPatterns(engine, input) == Success([])
  {
    var segments := Split(input, ',');
    forall j | 0 <= j < |segments| ensures AllSpace(segments[j]) {
      SegmentsAreInfixes(input, ',', j);
      forall k | 0 <= k < |segments[j]| ensures IsSpace(segments[j][k]) {
        var c := segments[j][k];
        assert c in segments[j];
        assert c in input;
        assert c != ',';
      }
    }
    FieldsOfBlanks(segments);
  }

  lemma {:induction false} SegmentsAreInfixes(s: string, sep: char, j: nat)
    requires j < |Split(s, sep)|
    ensures forall c :: c in Split(s, sep)[j] ==> c in s
    decreases |s|
  {
    if |s| > 0 {
      var rest := Split(s[1..], sep);
      if s[0] == sep {
        if j > 0 { SegmentsAreInfixes(s[1..], sep, j - 1); }
      } else {
        if j == 0 {
          SegmentsAreInfixes(s[1..], sep, 0);
        } else {
          SegmentsAreInfixes(s[1..], sep, j);
        }
      }
    }
  }

  /** The list is never longer than the number of commas plus one. */
  lemma CountBound(engine: Engine, input: string)
    requires ConvertToRegexPatterns(engine, input).Success?
    ensures |ConvertToRegexPatterns(engine, input).value| <= Count(input, ',') + 1
  {
  }

  /** No compiled source contains a comma or begins or ends with white space. */
  lemma SourcesAreClean(engine: Engine, input: string)
    requires ConvertToRegexPatterns(engine, input).Success?
    ensures var ps := ConvertToRegexPatterns(engine, input).value;
            forall k :: 0 <= k < |ps| ==> ps[k].Compiled? && Clean(ps[k].expr) && ',' !in ps[k].expr
  {
    FieldsAvoid(Split(input, ','), ',');
    FieldsAreClean(Split(input, ','));
  }

  /** Segments that are already clean are their own fields. */
  lemma {:induction false} FieldsOfClean(segments: seq<string>)
    requires forall j :: 0 <= j < |segments| ==> Clean(segments[j])
    ensures Fields(segments) == segments
    decreases |segments|
  {
    if |segments| > 0 {
      var s0 := segments[0];
      TrimSpaceOfTrimmed(s0);
      FieldsOfClean(segments[1..]);
      assert [s0] + segments[1..] == segments;
    }
  }

  /** A clean source with white space around it is one field. */
  lemma FieldOf(pre: string, t: string, post: string)
    requires AllSpace(pre) && AllSpace(post) && Clean(t)
    ensures Field(pre + t + post) == [t]
  {
    TrimSpaceOf(pre, t, post);
  }

  /** A white-space-only segment is no field. */
  lemma FieldOfBlank(segment: string)
    requires AllSpace(segment)
    ensures Field(segment) == []
  {
  }

  lemma FieldsOfThree(s0: string, s1: string, s2: string)
    ensures Fields([s0, s1, s2]) == Field(s0) + Field(s1) + Field(s2)
  {
    FlatMapThree(Field, s0, s1, s2);
  }

  /** A list of two sources is compiled into the list of their two expressions. */
  lemma CompiledFromTwo(ps: seq<Regexp>, a: string, b: string)
    requires CompiledFrom(ps, [a, b])
    ensures ps == [Compiled(a), Compiled(b)]
  {
    assert ps[0] == Compiled([a, b][0]) && ps[1] == Compiled([a, b][1]);
  }

  /** Segments whose fields are two compiling sources build their two expressions. */
  lemma CompileTwoValid(engine: Engine, segments: seq<string>, a: string, b: string)
    requires Fields(segments) == [a, b] && engine.valid(a) && engine.valid(b)
    ensures CompileSegments(engine, segments) == Success([Compiled(a), Compiled(b)])
  {
    var r := CompileSegments(engine, segments);
    assert AllValid(engine, [a, b]) by {
      ConsAllValid(engine, b, []);
      ConsAllValid(engine, a, [b]);
      assert [b] + [] == [b] && [a] + [b] == [a, b];
    }
    CompiledFromTwo(r.value, a, b);
  }

  /** Segments whose fields are a compiling source then a failing one report the second. */
  lemma CompileTwoInvalid(engine: Engine, segments: seq<string>, a: string, b: string)
    requires Fields(segments) == [a, b] && engine.valid(a) && !engine.valid(b)
    ensures CompileSegments(engine, segments) == Failure(InvalidPattern(b))
  {
    var r := CompileSegments(engine, segments);
    assert !AllValid(engine, [a, b]) by { assert !engine.valid([a, b][1]); }
    FirstInvalidOfTwo(engine, a, b, r.error.pattern);
  }

  /** After a compiling source, the first failing one of two is the second. */
  lemma FirstInvalidOfTwo(engine: Engine, a: string, b: string, p: string)
    requires engine.valid(a) && FirstInvalid(engine, [a, b], p)
    ensures p == b
  {
    var fs := [a, b];
    var k :| 0 <= k < |fs| && fs[k] == p && !engine.valid(fs[k]) && AllValid(engine, fs[..k]);
    assert k != 0 by { assert fs[0] == a; }
  }

  /** The configuration `" a , ,b "`, for any two sources and any white space
      around them: the blank middle segment is skipped and both sources
      are trimmed, in order. */
  lemma SkipsBlanksAndTrims(engine: Engine, a: string, b: string, w0: string, w1: string, w2: string, w3: string)
    requires Clean(a) && Clean(b) && ',' !in a && ',' !in b
    requires AllSpace(w0) && AllSpace(w1) && AllSpace(w2) && AllSpace(w3)
    requires engine.valid(a) && engine.valid(b)
    ensures ConvertToRegexPatterns(engine, w0 + a + w1 + "," + w2 + "," + b + w3) == Success([Compiled(a), Compiled(b)])
  {
    var segments := [w0 + a + w1, w2, b + w3];
    SplitThree(w0 + a + w1, w2, b + w3);
    assert w0 + a + w1 + "," + w2 + "," + b + w3 == (w0 + a + w1) + [','] + w2 + [','] + (b + w3);
    FieldOf(w0, a, w1);
    FieldOfBlank(w2);
    FieldOf([], b, w3);
    assert [] + b + w3 == b + w3;
    FieldsOfThree(w0 + a + w1, w2, b + w3);
    CompileTwoValid(engine, segments, a, b);
  }

  /** Three comma-free pieces joined by commas split back into those pieces. */
  lemma SplitThree(s0: string, s1: string, s2: string)
    requires ',' !in s0 && ',' !in s1 && ',' !in s2
    ensures Split(s0 + [','] + s1 + [','] + s2, ',') == [s0, s1, s2]
  {
    var segments := [s0, s1, s2];
    SplitJoin(segments, ',');
    JoinCons(s1, [s2], ',');
    JoinCons(s0, [s1, s2], ',');
    assert [s1] + [s2] == [s1, s2] && [s0] + [s1, s2] == segments;
    assert s0 + [','] + s1 + [','] + s2 == s0 + [','] + (s1 + [','] + s2);
  }

  /** One bad source spoils the whole list, even after a good one, and is the one reported. */
  lemma BadSourceSpoilsAll(engine: Engine, a: string, b: string)
    requires Clean(a) && Clean(b) && ',' !in a && ',' !in b
    requires engine.valid(a) && !engine.valid(b)
    ensures ConvertToRegexPatterns(engine, a + "," + b) == Failure(InvalidPattern(b))
  {
    var segments := [a, b];
    assert Split(a + "," + b, ',') == segments by {
      SplitJoin(segments, ',');
      assert Join(segments, ',') == a + "," + b;
    }
    FieldsOfClean(segments);
    CompileTwoInvalid(engine, segments, a, b);
  }
}
