/** Failure kinds of the package manager (src/lib/Errors.ts), plus the
    non-library failures its callers can observe (file-system and type
    errors), and the Result/Outcome/Option wrappers used everywhere. */
module Errors {

  datatype Error =
    // errors registered in src/lib/Errors.ts
    | PackageNotFound(key: string, viaAlias: bool)
    | NpmError
    | PackageNotReleased(pkg: string)
    | InvalidPackage(what: string)
    | DupPackage(name: string)
    | ReleaseConfigNotFound(env: string)
    | DupPackageAlias(alias: string, packages: seq<string>)
    | RecursiveDep(pkg: string, dependency: string)
    | InvalidTemplate(template: string)
    | InvalidPackageName(name: string)
    | InvalidJsonFile(file: string)
    | UnknownSubPackage(packages: seq<string>)
    | PrivateDependency(pkg: string, dependency: string)
    | DepNotLocked(pkg: string, dependency: string)
    | InvalidMasterPackage(path: string)
    // failures that do not come from the error registry
    | FileNotFound(path: string)
    | PathConflict(path: string)
    | InvalidPackageShape
    | TypeError(what: string)
    // a command that exits with a non-zero status, or prints to stderr only
    | CommandFailed(cwd: string, argv: seq<string>)
    // the model's stand-in for a recursion that never ends
    | FuelExhausted

  /** `E.errors.is(e)`: true for the errors of the registry only. */
  predicate IsRegistered(e: Error) {
    !(e.FileNotFound? || e.PathConflict? || e.InvalidPackageShape? || e.TypeError? || e.CommandFailed? || e.FuelExhausted?)
  }

  datatype Option<+T> = None | Some(value: T)

  datatype Result<+T> = Ok(value: T) | Err(error: Error) {
    predicate IsFailure() { Err? }
    function PropagateFailure<U>(): Result<U> requires Err? { Err(error) }
    function Extract(): T requires Ok? { value }
  }

  datatype Outcome = Pass | Fail(error: Error) {
    predicate IsFailure() { Fail? }
    function PropagateFailure(): Outcome requires Fail? { this }
  }
}
