/** The records the name board works on, as the `/names` endpoint returns them. */
module Records {

  datatype Option<T> = None | Some(value: T)

  /** One entry of the list: the server's `_id`, the displayed `firstName`
      and the `liked` flag. */
  datatype Name = Name(id: string, firstName: string, liked: bool)
}
