/** The exceptions the request pipeline can raise. Their Python message
    text (`str(e)`) is not modelled; callers render them through a given
    description function. */
module Errors {

  datatype Error =
    /** A header line before the blank line has no `:`, so unpacking
        `line.split(":", 1)` into two names fails. */
    | MalformedHeader(line: string)
    /** The Content-Length value is not an integer literal. */
    | InvalidContentLength(text: string)
    /** `recv` was asked for more bytes than a C `ssize_t` holds
        (`OverflowError`). */
    | RecvTooLarge(size: int)
    /** Opening the named file raised (permissions, not a regular file...). */
    | FileError(name: string)
}
