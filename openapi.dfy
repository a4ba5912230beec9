/** The part of the OpenAPI document model that the transformers edit.
    Only the fields the transformers read or write are kept. */
module Openapi {

  datatype Option<+T> = None | Some(value: T)

  /** Rust's `u16`, the type of the status-code const generic. */
  newtype u16 = x: int | 0 <= x < 0x1_0000

  /** A response key: an exact status code, or a range such as 2xx (stored as 2). */
  datatype StatusCode = Code(code: u16) | Range(range: u16)

  /** Either an inline item or a `$ref` to one defined elsewhere. */
  datatype ReferenceOr<+T> = Reference(reference: string) | Item(item: T)

  /** An example value after serialisation; its structure is opaque here. */
  type Json = string

  datatype MediaType = MediaType(schema: Option<string>, example: Option<Json>)

  /** A response: its description and its content, keyed by media type in insertion order. */
  datatype Response = Response(description: string, content: seq<(string, MediaType)>)

  /** The responses of one operation: an optional default and a table keyed by status code. */
  datatype Responses = Responses(
    default: Option<ReferenceOr<Response>>,
    responses: map<StatusCode, ReferenceOr<Response>>)

  datatype ParameterLocation = Query | Header | Path | Cookie

  datatype ParameterData = ParameterData(name: string, description: Option<string>)

  /** Every parameter kind carries the same parameter data. */
  datatype Parameter = Parameter(location: ParameterLocation, data: ParameterData)

  datatype Operation = Operation(
    operationId: Option<string>,
    description: Option<string>,
    parameters: seq<ReferenceOr<Parameter>>,
    responses: Option<Responses>)

  /** A path item; `operations` lists the operations it has, in method order. */
  datatype PathItem = PathItem(description: Option<string>, operations: seq<Operation>)

  datatype Paths = Paths(paths: seq<(string, ReferenceOr<PathItem>)>)

  datatype OpenApi = OpenApi(paths: Option<Paths>)
}
