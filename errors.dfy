/** The outcomes of github_repo_to_markdown. The source raises an exception on
    every failure and lets it end the run; here each failure is a value. */
module Errors {

  datatype Error =
    | InvalidRepositoryUrl           // the explicit ValueError: wrong host or wrong number of '/'
    | UnpackMismatch(got: nat)       // the ValueError of unpacking `got` names into owner, repo
    | ListingFailed(apiUrl: string)  // the listing request failed (transport error or HTTP error status)
    | FetchFailed(url: string)       // the content request of one file failed (transport error)

  datatype Result<T> = Ok(value: T) | Err(error: Error)
}
