/** Errors reported while documentation is generated. None of them aborts generation. */
module Errors {
  import opened Openapi

  datatype Error =
    | ParameterNotExists(name: string)
    | DefaultResponseExists
    | ResponseExists(status: StatusCode)
    | OperationExists(path: string, httpMethod: string)
    | DuplicateRequestBody
    | DuplicateParameter(parameter: string)
}
