/**
 * The one consumer of the registry: application bootstrap builds the root
 * module's dependency list from four fixed framework modules followed by
 * every registered module name, in registration order.
 */
module App {
  import opened Registry

  /** The framework modules the root module always depends on, in the order they are pushed. */
  const FrameworkDependencies: seq<string> :=
    ["ui.router", "pascalprecht.translate", "immutable-angular", "ngMaterial"]

  method RootDependencies(registry: ModuleRegistry) returns (deps: seq<string>)
    requires registry.Valid()
    ensures deps == FrameworkDependencies + Names(registry.modules)
    ensures |deps| == |FrameworkDependencies| + |registry.modules|
    ensures forall i :: 0 <= i < |registry.modules| ==>
              deps[|FrameworkDependencies| + i] == registry.modules[i].name
  {
    deps := [];
    deps := deps + ["ui.router"];
    deps := deps + ["pascalprecht.translate"];
    deps := deps + ["immutable-angular"];
    deps := deps + ["ngMaterial"];
    var names := registry.GetModuleNames();
    var i := 0;
    while i < |names|
      invariant 0 <= i <= |names|
      invariant deps == FrameworkDependencies + names[..i]
    {
      deps := deps + [names[i]];
      i := i + 1;
    }
    assert names[..i] == names;
  }
}
