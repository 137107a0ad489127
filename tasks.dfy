/**
 * The task records both charts read. They belong to the task framework's
 * `Task` table; the charts never change them.
 */
module Tasks {

  datatype Option<T> = None | Some(value: T)

  /**
   * One task execution: `createdAt` is when it started running and
   * `updatedAt` when it stopped, both in microseconds. Nothing guarantees
   * `createdAt <= updatedAt`.
   */
  datatype Task = Task(
    actor: string,
    queue: string,
    status: string,
    createdAt: int,
    updatedAt: int)
}
