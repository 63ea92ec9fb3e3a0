/** HTTP status handling shared by the fetchers. */
module Http {

  /** `Response.raise_for_status()` raises for client (4xx) and server (5xx) errors. */
  predicate IsErrorStatus(status: int) {
    400 <= status < 600
  }

  /** The statuses the arXiv client treats as rate limiting. */
  predicate RateLimited(status: int) {
    status == 429 || status == 503
  }
}
