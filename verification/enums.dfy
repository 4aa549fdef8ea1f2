/** The engine enumerations the visual shader API is keyed by.

    Their numeric values come from the engine's headers, which the tests
    include but which are not part of this model; every property below is
    stated for all values strictly below the matching `*_MAX` sentinel, so
    nothing depends on the exact numbering beyond the order the tests use.
 */
module ShaderEnums {

  // VisualShader::Type: one independent sub-graph per shader stage.
  const TYPE_VERTEX: int := 0
  const TYPE_FRAGMENT: int := 1
  const TYPE_LIGHT: int := 2
  const TYPE_START: int := 3
  const TYPE_PROCESS: int := 4
  const TYPE_COLLIDE: int := 5
  const TYPE_START_CUSTOM: int := 6
  const TYPE_PROCESS_CUSTOM: int := 7
  const TYPE_SKY: int := 8
  const TYPE_FOG: int := 9
  const TYPE_MAX: int := 10

  // Shader::Mode.
  const MODE_SPATIAL: int := 0
  const MODE_CANVAS_ITEM: int := 1
  const MODE_PARTICLES: int := 2
  const MODE_SKY: int := 3
  const MODE_FOG: int := 4
  const MODE_MAX: int := 5

  // VisualShader::VaryingMode.
  const VARYING_MODE_VERTEX_TO_FRAG_LIGHT: int := 0
  const VARYING_MODE_FRAG_TO_LIGHT: int := 1
  const VARYING_MODE_MAX: int := 2

  // VisualShader::VaryingType.
  const VARYING_TYPE_FLOAT: int := 0
  const VARYING_TYPE_INT: int := 1
  const VARYING_TYPE_UINT: int := 2
  const VARYING_TYPE_VECTOR_2D: int := 3
  const VARYING_TYPE_VECTOR_3D: int := 4
  const VARYING_TYPE_VECTOR_4D: int := 5
  const VARYING_TYPE_BOOLEAN: int := 6
  const VARYING_TYPE_TRANSFORM: int := 7
  const VARYING_TYPE_MAX: int := 8

  // VisualShaderNodeVectorOp::Operator (only the two values the model names).
  const VECTOR_OP_ADD: int := 0
  const VECTOR_OP_SUB: int := 1

  // VisualShaderNodeVectorBase::OpType: the operand width a fresh vector
  // operation starts with.
  const VECTOR_OP_TYPE_VECTOR_3D: int := 1

  /** The id the allocators hand out when asked about an invalid stage. */
  const NODE_ID_INVALID: int := -1
  /** The id of the built-in Output node every stage of a fresh shader holds. */
  const NODE_ID_OUTPUT: int := 0
  /** Ids 0 and 1 are kept for built-ins: allocation never goes below 2. */
  const FIRST_FREE_ID: int := 2

  predicate ValidStage(s: int) {
    0 <= s < TYPE_MAX
  }

  predicate ValidMode(m: int) {
    0 <= m < MODE_MAX
  }
}
