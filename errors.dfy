/** The errors the launch-spec computation and the image helpers return. */
module Errors {

  datatype Error =
    /** fakeroot.GetIDRange failed; its error is passed back unchanged. */
    | IdRangeLookupFailed(cause: string)
    /** A sub-ID range smaller than 65536: "<kind> range size (<size>) must be at least 65536". */
    | RangeTooSmall(kind: string, size: nat)
    /** The environment file could not be read. */
    | EnvFileUnreadable(file: string, cause: string)
    /** The shell interpreter rejected the environment file. */
    | EnvFileInvalid(file: string, cause: string)
    /** The effective capabilities of the launching process could not be read. */
    | CapabilityLookupFailed(cause: string)
    /** "while getting ProcessArgs: ..." from the native SIF action script. */
    | ProcessArgsFailed(cause: string)
    /** rootless.Getuid failed. */
    | UidLookupFailed(cause: string)
    /** "no root filesystem found" */
    | NoRootFilesystem
    /** "failed to resolve path <path>: <cause>" */
    | PathResolveFailed(path: string, cause: string)
}
