/** HTTP headers as all parts of the program share them. */
module Headers {

  /** An http.Header: the values of each field, in their order. */
  type Header = map<string, seq<string>>
}
