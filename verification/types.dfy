/**
  The records the application passes around. The source's `types.ts` is not
  part of this model; the fields are the ones App.tsx and the components read
  and write.
 */
module Types {

  /** `T | null`. */
  datatype Option<T> = None | Some(value: T)

  /** One stored script. `id` and `createdAt` come from the clock in the
      source; here they are whatever the caller supplies. */
  datatype Script = Script(id: string, title: string, code: string, tags: seq<string>, createdAt: string)

  /** `Omit<Script, 'id' | 'createdAt'>`: what the generator hands over to be saved. */
  datatype ScriptData = ScriptData(title: string, code: string, tags: seq<string>)
}
