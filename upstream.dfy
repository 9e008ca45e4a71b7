/** The upstream image server, as seen through a `HEAD` request. */
module Upstream {

  import opened Wrappers

  /**
   * The outcome of `fetch(url, {method: 'HEAD'})`: the request threw, or a
   * response arrived whose `ETag` header is `etag` (None when absent).
   */
  datatype Head = Unreachable | Headers(etag: Option<string>)

  /** JavaScript truthiness of a header value: present and not the empty string. */
  predicate Truthy(etag: Option<string>) {
    etag.Some? && etag.value != ""
  }
}
