/** What a stack frame or a sample stream knows about a function before its name is resolved. */
module FunctionIdentifiers {

  type ThreadID = nat

  /** Two identifiers are the same when all four fields are. */
  datatype FunctionIdentifier = FunctionIdentifier(functionToken: nat, moduleId: nat, isValid: bool, nativeIp: nat)
  {
    predicate IsNative() {
      isValid && functionToken == 0 && nativeIp != 0
    }
  }
}
