/**
 * The HTTP transport to the review server, as an oracle. Each request is
 * logged; what the server answers may depend on the request and on how
 * many requests came before it.
 */
module Connector {

  /** The four strings that address one revision of one change. */
  datatype Revision = Revision(project: string, branch: string, changeId: string, revisionId: string)

  datatype Request =
    | ListFilesRequest(revision: Revision)
    | SetReviewRequest(revision: Revision, json: string)

  /** The answer to a list-files request: a response body, or an I/O failure. */
  datatype Reply = Body(text: string) | IoError

  /** The answer to a set-review request. */
  datatype Delivery = Delivered | Undelivered

  class GerritConnector {
    /** The server's answer to the n-th request, when it is a list-files request. */
    const listReply: (nat, Revision) -> Reply
    /** The server's answer to the n-th request, when it is a set-review request. */
    const reviewReply: (nat, Revision, string) -> Delivery
    /** Every request issued so far, oldest first. */
    var requests: seq<Request>

    constructor (listReply: (nat, Revision) -> Reply, reviewReply: (nat, Revision, string) -> Delivery)
      ensures this.listReply == listReply && this.reviewReply == reviewReply
      ensures requests == []
    {
      this.listReply := listReply;
      this.reviewReply := reviewReply;
      requests := [];
    }

    method ListFiles(revision: Revision) returns (reply: Reply)
      modifies this
      ensures requests == old(requests) + [ListFilesRequest(revision)]
      ensures reply == listReply(|old(requests)|, revision)
    {
      reply := listReply(|requests|, revision);
      requests := requests + [ListFilesRequest(revision)];
    }

    method SetReview(revision: Revision, json: string) returns (delivery: Delivery)
      modifies this
      ensures requests == old(requests) + [SetReviewRequest(revision, json)]
      ensures delivery == reviewReply(|old(requests)|, revision, json)
    {
      delivery := reviewReply(|requests|, revision, json);
      requests := requests + [SetReviewRequest(revision, json)];
    }
  }
}
