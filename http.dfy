/** What the two storage functions (api/file_download/index.js, api/file_upload/index.js) hand to
    the Azure Functions host and to the storage SDK's signing call. */
module Http {
  import opened Wrappers

  datatype Header = Header(name: string, value: string)

  /** `context.res`: a status, headers and a body. */
  datatype Response = Response(status: nat, headers: seq<Header>, body: string)

  /** The fields passed to `generateBlobSASQueryParameters`: the container, the blob, the permission
      letters given to `BlobSASPermissions.parse`, the expiry in milliseconds since the epoch and,
      when set, the Content-Disposition the blob is served with. */
  datatype SasRequest = SasRequest(container: string, blobName: string, permissions: string, expiresOn: int,
                                   contentDisposition: Option<string>)

  /** The host every storage account's blobs are served from. */
  function BlobHost(account: string): string {
    "https://" + account + ".blob.core.windows.net"
  }
}
