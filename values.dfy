/** The Java objects that parsers and converters produce from text. */
module Values {
  import opened Time

  datatype Value =
    | BoolValue(b: bool)
    | IntValue(i: int)
    | TimeValue(t: EnhancedTime)
    | EnumValue(constant: string)
    /** An object made by a parser or converter outside this model. */
    | HostValue(id: nat)
}
