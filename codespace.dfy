/**
 * What both env scripts know about a GitHub Codespace: its identifier, taken
 * from `CODESPACE_NAME`, and the public URL of a forwarded port.
 */
module Codespace {
  import opened Wrappers
  import opened Text

  /** The placeholder the default env files carry where the codespace id belongs. */
  const Placeholder := "<your-codespace-id>"

  /** `process.env.X` is truthy: the variable is set and not empty. */
  predicate IsSet(v: Option<string>) {
    v.Some? && v.value != ""
  }

  /** `process.env.CODESPACE_NAME || '<your-codespace-id>'`. */
  function CodespaceId(name: Option<string>): (id: string)
    ensures IsSet(name) ==> id == name.value
    ensures !IsSet(name) ==> id == Placeholder
    ensures |id| > 0
  {
    if IsSet(name) then name.value else Placeholder
  }

  /** `https://<id>-<port>.app.github.dev`, with the port as text. */
  function CodespaceUrl(id: string, port: string): string {
    "https://" + id + "-" + port + ".app.github.dev"
  }

  /** Two forwarded ports of one codespace have different public URLs. */
  lemma CodespaceUrlInjective(id: string, p: nat, q: nat)
    requires CodespaceUrl(id, NatToString(p)) == CodespaceUrl(id, NatToString(q))
    ensures p == q
  {
    var head := "https://" + id + "-";
    var tail := ".app.github.dev";
    var u := CodespaceUrl(id, NatToString(p));
    assert u == head + NatToString(p) + tail;
    assert u == head + NatToString(q) + tail;
    assert |NatToString(p)| == |NatToString(q)|;
    assert NatToString(p) == u[|head|..|u| - |tail|];
    assert NatToString(q) == u[|head|..|u| - |tail|];
    NatToStringInjective(p, q);
  }
}
