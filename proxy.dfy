/** The proxy setting of gui.py: the text the user types in the proxy box
    becomes the proxy URL handed to every clone, fetch and pull. */
module Proxy {
  import opened Wrappers
  import opened Text

  const LocalProxyPrefix := "http://127.0.0.1:"

  /** `get_proxy_url`: nothing for a blank entry; a trimmed entry that starts
      with "http" is taken as a full URL; anything else is a port on the
      local host. */
  function ProxyUrl(entry: string): (r: Option<string>)
    ensures r == None <==> forall i :: 0 <= i < |entry| ==> IsSpace(entry[i])
    ensures r.Some? && StartsWith(Strip(entry), "http") ==> r.value == Strip(entry)
    ensures r.Some? && !StartsWith(Strip(entry), "http") ==> r.value == LocalProxyPrefix + Strip(entry)
  {
    var port := Strip(entry);
    if port == "" then None
    else if StartsWith(port, "http") then Some(port)
    else Some(LocalProxyPrefix + port)
  }

  /** A proxy URL is never empty, starts with "http" and carries no outer
      whitespace; so the callers' `proxy if proxy else None` passes it on
      unchanged. */
  lemma ProxyUrlShape(entry: string)
    requires ProxyUrl(entry).Some?
    ensures var u := ProxyUrl(entry).value;
      u != "" && StartsWith(u, "http") && Strip(u) == u
  {
    var port := Strip(entry);
    var u := ProxyUrl(entry).value;
    if StartsWith(port, "http") {
      StripIdempotent(entry);
    } else {
      assert u[0] == 'h';
      assert Lead(u) == 0;
      assert u[|u| - 1] == port[|port| - 1];
      assert Tail(u) == |u|;
    }
  }

  /** Feeding a proxy URL back into the proxy box gives the same URL. */
  lemma ProxyUrlIdempotent(entry: string)
    requires ProxyUrl(entry).Some?
    ensures ProxyUrl(ProxyUrl(entry).value) == ProxyUrl(entry)
  {
    ProxyUrlShape(entry);
  }

  /** A bare port such as "7890" becomes "http://127.0.0.1:7890". */
  lemma PortExample()
    ensures ProxyUrl(" 7890 ") == Some("http://127.0.0.1:7890")
  {
    var s := " 7890 ";
    assert Lead(s) == 1;
    assert Tail(s) == 5;
    assert Strip(s) == "7890";
    assert "7890"[0] != "http"[0];
    assert LocalProxyPrefix + "7890" == "http://127.0.0.1:7890";
  }
}
