/**
 The behaviours exercised by __tests__/take.ts, stated over the Pipeline model
 with concrete strings and mappers.
 */
module PipelineScenarios {
  import opened Pipeline

  /** Upper-casing of ASCII letters; every other character is kept. */
  function UpperChar(c: char): (u: char)
    ensures 'a' <= c <= 'z' ==> 'A' <= u <= 'Z' && u as int - c as int == 'A' as int - 'a' as int
    ensures !('a' <= c <= 'z') ==> u == c
  {
    if 'a' <= c <= 'z' then (c as int - 'a' as int + 'A' as int) as char else c
  }

  /** `s.toUpperCase()` restricted to ASCII letters. */
  function ToUpper(s: string): (r: string)
    ensures |r| == |s|
    ensures forall i :: 0 <= i < |s| ==> r[i] == UpperChar(s[i])
  {
    seq(|s|, i requires 0 <= i < |s| => UpperChar(s[i]))
  }

  /** The test mappers: `s => s.toUpperCase()`, `s => `Hello, ${s}``, `() => undefined`, `() => null`. */
  function Shout(s: string): (r: JsVal<string>) { Present(ToUpper(s)) }

  function Greet(s: string): (r: JsVal<string>) { Present("Hello, " + s) }

  function ToUndefined(s: string): (r: JsVal<string>) { Undefined }

  function ToNull(s: string): (r: JsVal<string>) { Null }

  /** A taken value is held and handed back. */
  lemma HoldsValue()
    ensures NewPipe(Present("foo")).Get() == Present("foo")
  {
  }

  /** One transformation, then a chain of two. */
  lemma TransformsValue()
    ensures NewPipe(Present("foo")).Through(Shout).Get() == Present("FOO")
    ensures NewPipe(Present("foo")).Through(Shout).Through(Greet).Get() == Present("Hello, FOO")
  {
    assert ToUpper("foo") == "FOO";
    ThroughComposes("foo", Shout, Greet);
    assert "Hello, " + "FOO" == "Hello, FOO";
  }

  /** `null` and `undefined` are nothing; falsy but present values are something. */
  lemma RecognisesAbsence()
    ensures NewPipe<string>(Null).IsNothing() && !NewPipe<string>(Null).IsSomething()
    ensures NewPipe<string>(Undefined).IsNothing() && !NewPipe<string>(Undefined).IsSomething()
    ensures NewPipe(Present(0)).IsSomething() && !NewPipe(Present(0)).IsNothing()
    ensures NewPipe(Present("")).IsSomething() && !NewPipe(Present("")).IsNothing()
    ensures NewPipe<seq<int>>(Present([])).IsSomething()
    ensures NewPipe<map<string, int>>(Present(map[])).IsSomething()
  {
  }

  /**
   A mapper returning `undefined` stops the chain. The pipe then holds
   `undefined`, not `null`: `through` does not normalise the sentinel.
   */
  lemma StopsOnUndefined()
    ensures NewPipe(Present("foo")).Through(Shout).Through(ToUndefined).Through(Greet).Get() == Undefined
    ensures NewPipe(Present("foo")).Through(Shout).Through(ToUndefined).Through(Greet).Get() != Null
  {
  }

  /** The fallback is used only when the pipe is nothing. */
  lemma FallsBackToDefault()
    ensures NewPipe(Present("foo")).WithDefault("bar") == OfValue("foo")
    ensures NewPipe<string>(Null).WithDefault("bar") == OfFallback("bar")
    ensures NewPipe(Present("foo")).Through(Shout).WithDefault("bar") == OfValue("FOO")
    ensures NewPipe(Present("foo")).Through(ToNull).WithDefault("bar") == OfFallback("bar")
  {
    assert ToUpper("foo") == "FOO";
  }
}
