/** The modules of a boot entry once LoadBootModule has seen them, as all protocols start from them. */
module Modules {
  import opened Bytes

  /** A module: its narrowed tag, and where the file was put and its size, if it could be loaded. */
  datatype ModuleFile = ModuleFile(tag: seq<Byte>, loaded: Option<(U64, U64)>)

  predicate AllLoaded(ms: seq<ModuleFile>) {
    forall m :: m in ms ==> m.loaded.Some?
  }
}
