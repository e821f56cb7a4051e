/** The body handling of `obtenerDetallesGist`: the remote resource publishes
    "<image url>,<timestamp>". */
module Gist {
  import opened Failures
  import opened Strings
  import Http

  /** The state the remote endpoint asks for. */
  datatype Desired = Desired(imageUrl: string, stamp: string)

  /** Turns the reply of the remote endpoint into the desired state. A missing
      response is a transport error; the status is checked before the body is
      split, so a non-200 reply fails whatever its body; otherwise the body
      must split on ',' into exactly two fields. A failure carries no strings,
      which is what the empty strings Go returns beside an error amount to. */
  function FetchDetails(reply: Http.Reply): (r: Result<Desired>)
    ensures reply.Unreachable? ==> r == Err(Transport)
    ensures reply.Response? && reply.status != Http.StatusOK ==> r == Err(Status(reply.status))
    ensures reply.Response? && reply.status == Http.StatusOK ==>
      (r.Ok? <==> Count(reply.body, ',') == 1) &&
      (r.Err? ==> r.error == Format(Count(reply.body, ',') + 1))
    ensures r.Ok? ==>
      reply.Response? &&
      r.value.imageUrl + [','] + r.value.stamp == reply.body &&
      ',' !in r.value.imageUrl && ',' !in r.value.stamp
  {
    match reply
    case Unreachable => Err(Transport)
    case Response(status, _, body) =>
      if status != Http.StatusOK then Err(Status(status))
      else
        var fields := Split(body, ',');
        if |fields| != 2 then Err(Format(|fields|))
        else
          JoinSplit(body, ',');
          assert Join(fields, ',') == fields[0] + [','] + fields[1];
          Ok(Desired(fields[0], fields[1]))
  }

  /** What the remote side publishes for a desired state. */
  function Publish(d: Desired): string
  {
    d.imageUrl + [','] + d.stamp
  }

  /** Publishing and fetching are inverse: any comma-free url and timestamp
      published with status 200 are read back unchanged. */
  lemma PublishRoundTrip(d: Desired, contentType: string)
    requires ',' !in d.imageUrl && ',' !in d.stamp
    ensures FetchDetails(Http.Response(Http.StatusOK, contentType, Publish(d))) == Ok(d)
  {
    SplitAtFirstSeparator(d.imageUrl, ',', d.stamp);
    SplitWithoutSeparator(d.stamp, ',');
  }
}
