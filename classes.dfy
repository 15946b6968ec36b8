/**
 * The identity of the Python classes the library refers to: schemas, enums and the classes whose
 * module is rewritten.
 */
module Classes {
  /** A Python class, by the dotted name of its defining module (`__module__`) and its `__name__`. */
  datatype ClassRef = ClassRef(moduleName: string, name: string)
}
