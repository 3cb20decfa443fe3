/** An optional value: stands for the component's `string | null` state and
    for the `undefined`/`null` cases of the values it receives. */
module Options {

  datatype Option<T> = None | Some(value: T)
}
