# take-then `Pipe` in Dafny

A model of the optional-value pipeline in `src/index.ts` of the take-then
package. A `Pipe` holds one JavaScript value that may be `null` or
`undefined`. `through` maps the value and short-circuits once it is absent;
`withDefault` and `get` leave the pipeline; `isSomething` and `isNothing` test
for presence; `log` passes the pipe on unchanged. The factory `pipe` wraps a
value as given.

Files:

- `pipeline.dfy`, module `Pipeline`: the data model and every operation of
  `src/index.ts`, with the laws of the pipeline as lemmas.
  - `JsVal<T> = Null | Undefined | Present(v)` is a JavaScript value with the
    two sentinels kept apart.
  - `Pipe<T> = Pipe(value: JsVal<T>)` is the wrapper. The class's own code
    assigns its field only in the constructor, so it is modelled as an
    immutable datatype with member functions.
  - `ThroughAll` folds `through` over a sequence of mappers, so that laws
    about chains of any length can be stated.
- `scenarios.dfy`, module `PipelineScenarios`: each case of
  `__tests__/take.ts` as a lemma over concrete strings. `ToUpper` stands in for
  `toUpperCase` on ASCII letters.

Modelling choices:

- A mapper is a total Dafny function `T -> JsVal<U>`, so a mapper may return
  either sentinel.
- `through` on an absent pipe returns `this`, cast to `Pipe<U>`. A Dafny value
  cannot change its type, so the model rebuilds a pipe holding the same
  sentinel. When `U` is `T` the result is equal to `this`
  (`ThroughAbsentIsThis`).
- `withDefault` returns the TypeScript union `T | U`. The model returns the
  tagged datatype `Union<T, U>`, either `OfValue(v)` or `OfFallback(d)`.

Where the tests and the source disagree, the model follows the source:

- The tests import `take` and call `.then(...)`. The source exports `pipe` and
  names the method `through` (src/index.ts:8, 47-49). The model uses the
  source's names.
- The test at __tests__/take.ts:46-54 expects `null` after a mapper returns
  `undefined`. By src/index.ts:8-19 the pipe keeps `undefined`, and `get`
  returns it verbatim. `PipelineScenarios.StopsOnUndefined` proves that the
  result is `Undefined` and not `Null`.

## Model

| member | source | states |
|---|---|---|
| Pipeline.Pipe.IsSomething | src/index.ts:29-31 | true exactly when the value is present, so falsy values such as 0 and "" count as something |
| Pipeline.Pipe.IsNothing | src/index.ts:33-35 | the exact negation of IsSomething, true exactly for `null` and `undefined` |
| Pipeline.Pipe.Through | src/index.ts:8-19 | a present pipe yields the mapper's result; an absent pipe stays absent and keeps its own sentinel (`null` stays `null`, `undefined` stays `undefined`) |
| Pipeline.Pipe.WithDefault | src/index.ts:21-27 | returns the fallback if and only if the pipe is nothing, and otherwise the held value (as a tag; the untagged JS result can coincide with the fallback when the held value equals it) |
| Pipeline.Pipe.Get | src/index.ts:37-39 | the result is present exactly when the pipe is something, and an absent pipe yields its own sentinel (`null` or `undefined`) |
| Pipeline.Pipe.Log | src/index.ts:41-44 | the returned pipe has the same `get` result and the same presence as the original |
| Pipeline.NewPipe | src/index.ts:47 | `get` of a new pipe gives back the value it was given; it is nothing exactly when that value is `null` or `undefined` |
| Pipeline.ThroughAbsentIsThis | src/index.ts:9-16 | `through` on an absent pipe returns that same pipe |
| Pipeline.ThroughAbsentIgnoresMapper | src/index.ts:9-16 | on an absent pipe the mapper has no influence on the result |
| Pipeline.ThroughComposes | src/index.ts:18 | `pipe(v).through(f).through(g).get()` is `g(f(v))` when `f(v)` is present |
| Pipeline.ThroughAssociative | src/index.ts:8-19 | two `through` steps equal one step with the composed mapper |
| Pipeline.ThroughIdentity | src/index.ts:8-19 | mapping with the identity leaves the pipe as it is |
| Pipeline.ThroughAllAbsorbs | src/index.ts:9-16 | once a pipe is absent, any chain of `through` steps leaves it unchanged, same sentinel |
| Pipeline.ThroughAllAppend | src/index.ts:8-19 | a chain of steps can be split at any point |
| Pipeline.ThroughAllSnoc | src/index.ts:8-19 | adding a mapper to the chain is one more `.through` call at its end |
| Pipeline.ThroughAllAbsentPrefix | src/index.ts:9-16 | if a chain is absent after some of its steps, the remaining steps change nothing |
| Pipeline.WithDefaultAgreesWithGet | src/index.ts:21-27 | `withDefault` gives the fallback exactly when `get` would give a sentinel, and `get`'s value otherwise |
| Pipeline.WithDefaultOfNewPipe | src/index.ts:21-27 | `pipe(v).withDefault(d)` is `v` when `v` is present and `d` when `v` is `null` or `undefined` |
| Pipeline.LogTransparent | src/index.ts:41-44 | `log` changes neither `get`, `isSomething`, nor any chain that follows it |
| PipelineScenarios.HoldsValue | __tests__/take.ts:5-9 | `pipe('foo').get()` is 'foo' |
| PipelineScenarios.TransformsValue | __tests__/take.ts:11-24 | upper-casing gives 'FOO', and greeting then gives 'Hello, FOO' |
| PipelineScenarios.RecognisesAbsence | __tests__/take.ts:26-44 | `null` and `undefined` are nothing; 0, '', [] and {} are something |
| PipelineScenarios.StopsOnUndefined | __tests__/take.ts:46-54 | after a mapper returns `undefined` the later mapper is skipped and `get` returns `undefined`, not `null` |
| PipelineScenarios.FallsBackToDefault | __tests__/take.ts:56-61 | `withDefault('bar')` gives the held value when present and 'bar' after `null` |

## Left out

- The `console.log` call in `log` (src/index.ts:42) is output to the console and is not modelled. `Log` is the identity on the pipe.
- Object identity is not captured: `through` on an absent pipe and `log` return the same object (`this`), while the model only says the returned value is equal.
- Writes to the public, non-readonly `value` field (src/index.ts:2) from outside the class are not captured; the model treats the field as fixed after construction.
- The `as any as Pipe<U>` cast (src/index.ts:15) has no run-time effect. The model rebuilds a pipe with the same sentinel instead.
- Exceptions thrown by a mapper propagate out of `through` uncaught. Mappers are total functions here, so the model has no such case.
- JavaScript's dynamic typing is reduced to a payload type `T` plus the two sentinels.
- ThroughAll: chains are stated over mappers of a single payload type, because a Dafny sequence cannot hold mappers of different types. Chains that change type are covered step by step by the two- and three-type lemmas.
- ToUpper covers ASCII letters only, which is all the test strings use.
