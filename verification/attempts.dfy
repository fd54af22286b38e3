/**
 The single failure channel of the input layer.

 In the Java interface a mapper either returns a value or throws a
 `RuntimeException`; the retry loop catches every such exception and only
 looks at its message. `Attempt` is that outcome as a value: `Ok` for a normal
 return, `Fail` for a thrown runtime exception together with its message.
 There is deliberately no third "defect" case: nothing thrown by a mapper or
 by a predicate escapes the retry loop.
 */
module Attempts {

  datatype Attempt<+T> = Ok(value: T) | Fail(msg: string)

  datatype Option<+T> = None | Some(value: T)
}
