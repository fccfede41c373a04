/** The WebAssembly constants the compiler writes: the section ids, value type and export
    kind of `WebAssemblyConstants.h`, and the opcodes of section 5.4 (Instructions) of the
    WebAssembly Core Specification that the generator uses but no header of the source
    declares. */
module Wasm {
  import opened Defines

  // Section ids (section 5.5.2 of the WebAssembly Core Specification).
  const SectionType: byte := 0x01
  const SectionFunc: byte := 0x03
  const SectionExport: byte := 0x07
  const SectionCode: byte := 0x0A

  /** The value type `i32` and the function type tag. */
  const ValI32: byte := 0x7F
  const FuncTypeTag: byte := 0x60

  /** The export kind of a function. */
  const ExportFunc: byte := 0x00

  // Opcodes.
  const OpEnd: byte := 0x0B
  const OpDrop: byte := 0x1A
  const OpI32Load: byte := 0x28
  const OpI32Store: byte := 0x36
  const OpI32Const: byte := 0x41
  const OpI32Eq: byte := 0x46
  const OpI32Ne: byte := 0x47
  const OpI32LtS: byte := 0x48
  const OpI32GtS: byte := 0x4A
  const OpI32LeS: byte := 0x4C
  const OpI32GeS: byte := 0x4E
  const OpI32Add: byte := 0x6A
  const OpI32Sub: byte := 0x6B
  const OpI32Mul: byte := 0x6C
  const OpI32DivU: byte := 0x6E

  /** The alignment immediate of the generator's loads and stores: 2^2 bytes. */
  const Align4: byte := 0x02
}
