/** Option and Result types, and the exceptions the modelled Python code can raise. */
module Outcomes {

  datatype Option<+T> = None | Some(value: T)

  /** The exceptions the source raises or lets propagate, one constructor per kind. */
  datatype Error =
    /** `RuntimeError("Error parsing document {file_path}: ...")` from the clause extractor. */
    | DocumentError(filePath: string, message: string)
    /** `RuntimeError("Hugging Face API error {status}: {body}")`. */
    | HfApiError(status: int, body: string)
    /** `RuntimeError("Gemini API error {status}: {body}")`. */
    | GeminiApiError(status: int, body: string)
    /** An exception of the HTTP client itself (connection failure, timeout). */
    | TransportError(reason: string)
    /** `resp.json()` on a body that is not JSON. */
    | JsonDecodeError
    | IndexError
    | KeyError(key: string)
    | TypeError
    | ValueError
    | AttributeError
    /** A pydantic model refused a field value. */
    | ValidationError(model: string)

  /** A computation that either produces a value or raises an exception. */
  datatype Result<+T> = Success(value: T) | Failure(error: Error)
}
