/** The address types of `internal/addrs`: instance keys, module paths and resources.

    Only concrete keys appear here. The wildcard that move endpoints use internally has
    a type of its own, `MoveEndpoints.PatternKey`, so no address can hold one by accident.
 */
module Addrs {

  datatype Option<+T> = None | Some(value: T)

  const MIN_INT := -0x8000_0000_0000_0000
  const MAX_INT := 0x7fff_ffff_ffff_ffff

  /** A machine integer, the range of an integer instance key. */
  type Int64 = i: int | MIN_INT <= i <= MAX_INT

  datatype InstanceKey = NoKey | IntKey(index: Int64) | StringKey(text: string)

  datatype ModuleInstanceStep = ModuleInstanceStep(name: string, key: InstanceKey)

  /** A static module path: the names of the calls leading to a module. */
  type Module = seq<string>

  /** A dynamic module path: the calls and the instance chosen at each of them. */
  type ModuleInstance = seq<ModuleInstanceStep>

  datatype AbsModuleCall = AbsModuleCall(caller: ModuleInstance, name: string)

  datatype ResourceMode = Managed | Data | Ephemeral

  datatype Resource = Resource(mode: ResourceMode, typeName: string, name: string)

  datatype ResourceInstance = ResourceInstance(resource: Resource, key: InstanceKey)

  datatype AbsResource = AbsResource(path: ModuleInstance, resource: Resource)

  datatype AbsResourceInstance = AbsResourceInstance(path: ModuleInstance, local: ResourceInstance) {
    /** The resource this instance belongs to, which forgets the instance key. */
    function ContainingResource(): AbsResource {
      AbsResource(path, local.resource)
    }
  }

  /** The instance of a resource that has the given key. */
  function InstanceOf(r: AbsResource, key: InstanceKey): AbsResourceInstance {
    AbsResourceInstance(r.path, ResourceInstance(r.resource, key))
  }
}
