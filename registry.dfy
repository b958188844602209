/**
 * The module registry of the demo application: an ordered record of the
 * AngularJS modules that the root application module depends on. It keeps
 * two lists side by side, the module objects and their names, and offers
 * only append (registerModule), reset (clear) and read access.
 */
module Registry {

  /** An AngularJS module as the registry sees it: an opaque value with a name. */
  datatype NgModule = NgModule(name: string)

  /** The names of `ms`, in the same order (what `moduleNames` must mirror). */
  function Names(ms: seq<NgModule>): (r: seq<string>)
    ensures |r| == |ms|
    ensures forall i :: 0 <= i < |ms| ==> r[i] == ms[i].name
  {
    if ms == [] then [] else [ms[0].name] + Names(ms[1..])
  }

  class ModuleRegistry {
    var modules: seq<NgModule>
    var moduleNames: seq<string>

    /** The two lists are kept in lock-step: entry i of the names is the name of module i. */
    ghost predicate Valid()
      reads this
    {
      moduleNames == Names(modules)
    }

    constructor ()
      ensures Valid()
      ensures modules == [] && moduleNames == []
    {
      modules := [];
      moduleNames := [];
    }

    /** Empties both lists, whatever they held; so clearing twice is clearing once. */
    method Clear()
      modifies this
      ensures Valid()
      ensures modules == [] && moduleNames == []
    {
      modules := [];
      moduleNames := [];
    }

    /** Appends the module and its name; no de-duplication, earlier entries untouched. */
    method RegisterModule(m: NgModule)
      requires Valid()
      modifies this
      ensures Valid()
      ensures modules == old(modules) + [m]
      ensures moduleNames == old(moduleNames) + [m.name]
    {
      modules := modules + [m];
      moduleNames := moduleNames + [m.name];
    }

    method GetModules() returns (r: seq<NgModule>)
      ensures r == modules
    {
      r := modules;
    }

    /** The registered names, in registration order, one per registered module. */
    method GetModuleNames() returns (r: seq<string>)
      requires Valid()
      ensures r == moduleNames
      ensures |r| == |modules|
      ensures forall i :: 0 <= i < |r| ==> r[i] == modules[i].name
    {
      r := moduleNames;
    }
  }

  /** Registering A, B, C in turn into a new registry yields their names in that order. */
  method RegisterInOrder(a: NgModule, b: NgModule, c: NgModule) returns (names: seq<string>)
    ensures names == [a.name, b.name, c.name]
  {
    var registry := new ModuleRegistry();
    registry.RegisterModule(a);
    registry.RegisterModule(b);
    registry.RegisterModule(c);
    names := registry.GetModuleNames();
  }

  /** Registering the same module twice adds two entries to each list. */
  method RegisterTwice(registry: ModuleRegistry, m: NgModule)
    requires registry.Valid()
    modifies registry
    ensures registry.Valid()
    ensures registry.modules == old(registry.modules) + [m, m]
    ensures registry.moduleNames == old(registry.moduleNames) + [m.name, m.name]
    ensures |registry.modules| == old(|registry.modules|) + 2
    ensures |registry.moduleNames| == old(|registry.moduleNames|) + 2
  {
    registry.RegisterModule(m);
    registry.RegisterModule(m);
  }

  /** A second `clear` leaves the registry exactly as the first one did. */
  method ClearTwice(registry: ModuleRegistry)
    modifies registry
    ensures registry.Valid()
    ensures registry.modules == [] && registry.moduleNames == []
  {
    registry.Clear();
    registry.Clear();
  }
}
