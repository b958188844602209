# angularjs-webpack-starter: module registry and build helpers

This project models the two pieces of the AngularJS/webpack starter that hold
logic, and proves properties about them in Dafny.

- **The module registry** (`ModuleRegistry`). The demo application records the
  AngularJS modules it wants the root module to depend on. The registry keeps
  two parallel lists: the module objects and their names. `registerModule`
  appends to both. `clear` resets both. `getModules` and `getModuleNames`
  expose them. At bootstrap the application builds the root module's
  dependency list. It starts with four framework modules and then adds every
  registered name in registration order. Model: module `Registry` in
  `registry.dfy`, a class with two `seq` fields whose object invariant `Valid()`
  keeps them in lock-step. The bootstrap loop is module `App` in `app.dfy`.
- **The build helpers** (`config/helpers.js`). `prependExt` is also exported as
  `prepend`. It builds webpack's resolver extension list: `""`, then each
  extension followed by that extension with each prefix prepended.
  `hasProcessFlag` tells whether a flag occurs in the command line. Model:
  module `Helpers` in `helpers.dfy`. These are pure recursive functions. The
  command line (`process.argv`) is an explicit `seq<string>` parameter.

`prependExt` is modelled as the left fold that the source's `reduce` performs
(`Reduce`). A separate right-recursive reference definition (`Blocks`, and
`Interleave` for a single prefix) is proved equal to it. The positional and
length properties are then proved about the reference definition.
`prependExt` normalises its second argument with `args || []` and
`Array.isArray`. `PrefixArg` captures the three cases this gives. Because the
empty string is falsy in JavaScript, a single `""` prefix behaves like a
missing one.

`hasProcessFlag` is modelled through a model of `String.prototype.indexOf`,
which returns the first match or -1. It is proved equivalent to an
independent substring predicate. The code does a substring test on the
arguments joined with no separator. It does not look for an exact argument
token. So a flag can match across two neighbouring arguments or
inside a longer argument, and the empty flag always matches.

## Model

| member | source | states |
|---|---|---|
| Registry.Names | src/app/modules/commons/modules/module.registry.ts:42-45 | the name list that mirrors a module list: the same length, and entry i is the name of module i |
| Registry.ModuleRegistry.constructor | src/app/modules/commons/modules/module.registry.ts:25-28 | a new registry has no modules and no names, and satisfies the lock-step invariant |
| Registry.ModuleRegistry.Clear | src/app/modules/commons/modules/module.registry.ts:33-36 | whatever the registry held, afterwards both lists are empty and the invariant holds |
| Registry.ModuleRegistry.RegisterModule | src/app/modules/commons/modules/module.registry.ts:42-45 | the module is appended to `modules` and its name to `moduleNames`; the old lists are unchanged prefixes of the new ones; the lock-step invariant is preserved |
| Registry.ModuleRegistry.GetModules | src/app/modules/commons/modules/module.registry.ts:51-53 | returns the current module list and modifies nothing |
| Registry.ModuleRegistry.GetModuleNames | src/app/modules/commons/modules/module.registry.ts:59-61 | returns the current name list and modifies nothing; the list has one entry per module, and entry i is the name of module i |
| Registry.RegisterInOrder | src/app/modules/commons/modules/module.registry.ts:42-45 | registering A, B, C in turn into a new registry yields the names `[A.name, B.name, C.name]` |
| Registry.RegisterTwice | src/app/modules/commons/modules/module.registry.ts:43-44 | no de-duplication: registering the same module twice appends it twice, and both lengths grow by 2 |
| Registry.ClearTwice | src/app/modules/commons/modules/module.registry.ts:33-36 | clearing twice leaves the same state as clearing once: both lists empty |
| App.RootDependencies | src/app/app.ts:35-43 | the root dependency list is the four framework modules followed by the registered module names, in registration order |
| Helpers.PrefixList | config/helpers.js:24-25 | the normalised prefix list is empty exactly for a missing or falsy argument or an empty array; a non-empty single value `p` gives `[p]`; an array is kept as it is |
| Helpers.Prefixed | config/helpers.js:27-29 | the mapped list has one entry per prefix, and entry i is prefix i followed by the extension |
| Helpers.Reduce | config/helpers.js:26-30 | each fold step only appends: the accumulator is a prefix of the result |
| Helpers.PrependExt | config/helpers.js:23-31 | the result is never empty, and its first entry is `""` (the reduce's initial value) |
| Helpers.ReduceIsBlocks | config/helpers.js:26-30 | the fold equals the accumulator followed by the reference blocks of the remaining extensions, in order |
| Helpers.BlocksAt | config/helpers.js:27-29 | in the reference definition, extension j sits at `j*(1+k)` and is followed by its k prefixed forms in prefix order |
| Helpers.BlocksLength | config/helpers.js:27-29 | the reference definition has exactly `|extensions| * (1 + k)` entries |
| Helpers.PrependExtLength | config/helpers.js:26-30 | the result has exactly `1 + |extensions| * (1 + k)` entries and starts with `""` |
| Helpers.PrependExtAt | config/helpers.js:27-29 | extension j sits at `1 + j*(1+k)` and is followed immediately by `prefixes[0]+ext`, ..., `prefixes[k-1]+ext`; with the length this fixes every entry |
| Helpers.PrependExtNoExtensions | config/helpers.js:26-30 | an empty extension list gives `[""]` for any prefix argument |
| Helpers.PrependExtAbsent | config/helpers.js:24 | a missing or falsy prefix argument gives `""` followed by the extensions unchanged |
| Helpers.PrependExtEmptyPrefix | config/helpers.js:24 | the falsy single prefix `""` is treated as no prefixes, so the result is `""` followed by the extensions |
| Helpers.PrependExtSingle | config/helpers.js:25 | a non-empty non-array prefix behaves as a one-element array: the length is `1 + 2*|extensions|`, extension j is at `1+2j` and the prefixed extension at `2+2j` |
| Helpers.BlocksOnePrefix | config/helpers.js:27-29 | with one prefix the reference blocks equal the interleaving of each extension with its prefixed form |
| Helpers.PrependExtInterleaves | config/helpers.js:25-30 | with one non-empty prefix the result is `""` followed by each extension and then the prefixed extension |
| Helpers.AsyncResolverExtensions | webpack.prod.config.js:59 | the exported `prepend` of config/helpers.js, given that line's arguments (six extensions and the prefix `".async"`), returns `["", ".ts", ".async.ts", ".js", ".async.js", ..., ".html", ".async.html"]` |
| Helpers.Join | config/helpers.js:10 | `argv.join("")` concatenates the arguments with no separator; no argument is longer than the result |
| Helpers.JoinIsEmpty | config/helpers.js:10 | the joined command line is empty exactly when every argument is empty |
| Helpers.IndexOf | config/helpers.js:10 | `indexOf` is -1 exactly when the flag is not a substring; otherwise it is the first index where the flag occurs |
| Helpers.IndexOfFrom | config/helpers.js:10 | `indexOf` gives the first index at or after the start where the flag occurs, or -1 exactly when it occurs nowhere there |
| Helpers.HasProcessFlag | config/helpers.js:9-11 | true exactly when the flag is a substring of the arguments joined with no separator |
| Helpers.EmptyFlagAlwaysMatches | config/helpers.js:10 | the empty flag is found in every command line, including an empty one |
| Helpers.JoinAppend | config/helpers.js:10 | joining the concatenation of two argument lists gives the join of the first followed by the join of the second |
| Helpers.JoinAround | config/helpers.js:10 | the joined command line is the join of the arguments before i, then argument i, then the join of the arguments after it |
| Helpers.ArgumentIsFlag | config/helpers.js:10 | a flag passed as a whole argument is detected |
| Helpers.FlagSpansArguments | config/helpers.js:10 | a match may span two neighbouring arguments: their concatenation is detected |
| Helpers.FlagSurvivesMoreArguments | config/helpers.js:10 | appending arguments never hides a flag that was already detected |

## Left out

- `root` and `rootNode` (config/helpers.js:13-21) are left out. They wrap Node's `path.join` and the project's location on disk. Path normalisation belongs to Node's `path` library, which is not part of this model.
- Reading `process.argv` is left out: the argument vector is a parameter of `HasProcessFlag`.
- `prepend` is the same function as `prependExt` under a second export name, so it is not modelled separately.
- `PrefixArg` covers every falsy argument (missing, `null`, `0`, `false`, `NaN`, `""`), which `args || []` turns into the empty list, as well as non-empty strings and arrays of strings. Truthy single values that are not strings are not modelled: non-zero numbers, `true` and objects, which `prefix + val` would convert to strings. Arrays whose elements are not strings are not modelled either.
- `Reduce` assumes every extension is a string. In JavaScript, `concat` would spread an array given as an extension. That case is not modelled.
- Registry.ModuleRegistry.GetModules and Registry.ModuleRegistry.GetModuleNames return sequence values. In TypeScript they return the live arrays, so a caller that mutated them would change the registry. This aliasing is not modelled.
- Strings are sequences of characters. JavaScript's UTF-16 code units and `indexOf`'s conversion of a non-string flag are not modelled.
- The rest of application bootstrap (src/app/app.ts:45-100) is left out: it creates the AngularJS module, configures the router and translation, and bootstraps the page. All of these are calls into the framework. Only the construction of the dependency list is modelled.
- The framework's module object is reduced to its name (`NgModule`). The registry uses nothing else of it.
