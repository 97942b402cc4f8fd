/**
 Return types of Laravel's `redirect()` and `response()` helpers, chosen by the
 number of arguments at the call site only: without arguments each helper
 returns its factory, with arguments the concrete response it builds.
 */
module Helpers {

  /** An object type, identified by its class name. */
  datatype ObjectType = ObjectType(className: string)

  /** A literal call argument; the resolver never looks inside one. */
  datatype Arg = Str(s: string) | Int(i: int) | Bool(b: bool) | Arr(entries: seq<(string, string)>)

  /** The two return types of a helper: without arguments, and with at least one. */
  datatype Overload = Overload(noArgs: string, withArgs: string)

  const Redirector := "Illuminate\\Routing\\Redirector"
  const RedirectResponse := "Illuminate\\Http\\RedirectResponse"
  const ResponseFactory := "Illuminate\\Contracts\\Routing\\ResponseFactory"
  const Response := "Symfony\\Component\\HttpFoundation\\Response"

  /** The arity-keyed table, one row per supported helper. */
  const HelperTable: map<string, Overload> := map[
    "redirect" := Overload(Redirector, RedirectResponse),
    "response" := Overload(ResponseFactory, Response)
  ]

  predicate IsFunctionSupported(name: string) {
    name in HelperTable
  }

  /**
   The type of a call of helper `name` with `args`; it is the helper's factory
   type exactly when there are no arguments.
   */
  function ReturnType(name: string, args: seq<Arg>): (t: ObjectType)
    requires IsFunctionSupported(name)
    ensures t.className in {HelperTable[name].noArgs, HelperTable[name].withArgs}
    ensures t.className == HelperTable[name].noArgs <==> args == []
  {
    var row := HelperTable[name];
    ObjectType(if |args| == 0 then row.noArgs else row.withArgs)
  }

  /** Both helpers the tests exercise are supported; nothing else is. */
  lemma SupportedHelpers(name: string)
    ensures IsFunctionSupported("redirect") && IsFunctionSupported("response")
    ensures IsFunctionSupported(name) <==> name == "redirect" || name == "response"
  {
  }

  /** Only the number of arguments matters, never their values. */
  lemma OnlyCountMatters(name: string, a: seq<Arg>, b: seq<Arg>)
    requires IsFunctionSupported(name) && |a| == |b|
    ensures ReturnType(name, a) == ReturnType(name, b)
  {
  }

  const Expires := Arr([("expires", "2018-01-25 10:43:00")])

  /** The rows of the redirect data provider: arguments and expected class. */
  const RedirectCases: seq<(seq<Arg>, string)> := [
    ([], Redirector),
    ([Str("/")], RedirectResponse),
    ([Str("/"), Int(301)], RedirectResponse),
    ([Str("/"), Int(307), Expires], RedirectResponse),
    ([Str("/"), Int(307), Expires, Bool(true)], RedirectResponse)
  ]

  /** The rows of the response data provider: arguments and expected class. */
  const ResponseCases: seq<(seq<Arg>, string)> := [
    ([], ResponseFactory),
    ([Str("Hello World")], Response),
    ([Str("Hello World"), Int(204)], Response),
    ([Str("Hello World"), Int(200), Expires], Response)
  ]

  lemma RedirectDataProvider()
    ensures IsFunctionSupported("redirect")
    ensures forall i :: 0 <= i < |RedirectCases| ==>
      ReturnType("redirect", RedirectCases[i].0) == ObjectType(RedirectCases[i].1)
  {
  }

  lemma ResponseDataProvider()
    ensures IsFunctionSupported("response")
    ensures forall i :: 0 <= i < |ResponseCases| ==>
      ReturnType("response", ResponseCases[i].0) == ObjectType(ResponseCases[i].1)
  {
  }
}
