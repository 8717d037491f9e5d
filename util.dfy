/** Small shared datatypes. */
module Util {

  datatype Option<T> = None | Some(value: T)

  /** A value, or the message of the panic that prevented it. */
  datatype Result<T> = Ok(value: T) | Fail(msg: string)

  /** How a kernel path that may sleep ends in the model: it completed, the
      task would sleep forever (the environment had no further step to offer
      while the task still waited), the task would loop forever without ever
      sleeping, the kernel panicked, or the kernel stored through a NULL
      pointer: in the kernel's identity-mapped address space that write lands
      in low memory, which the model does not follow, so it stops there. */
  datatype Status = Done | Asleep | Spins | Panic(msg: string) | NullStore
}
