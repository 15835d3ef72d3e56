/** What the generator extracts from the registry, and the ways it can stop the build. */
module Entities {

  /** One flat API constant: its C type, its literal text and its name. */
  datatype ApiConstant = ApiConstant(variableType: string, value: string, name: string)

  /** One enumeration group: its name and the members whose value is an i32 literal. */
  datatype VulkanEnum = VulkanEnum(name: string, values: map<string, int>)

  /** One handle: the text of its `type` child (the handle kind) and of its `name` child. */
  datatype Handle = Handle(kind: string, name: string)

  /** The three collections the extraction pass builds. */
  datatype Registry = Registry(
    constants: map<string, ApiConstant>,
    enums: seq<VulkanEnum>,
    handles: seq<Handle>)

  /** The conditions on which the generator panics, one variant per `panic!`. */
  datatype BuildError =
    | UnresolvedAlias(name: string, alias: string)
    | UnrecognizedConstantShape(attributes: map<string, string>)
    | UnknownHandleKind(kind: string, name: string)
}
