/** The optional value used where the C# code returns null or uses TryGetValue. */
module Wrappers {

  datatype Option<+T> = None | Some(value: T)
}
