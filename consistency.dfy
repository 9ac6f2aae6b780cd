/**
 * How the three scripts fit together: the key lines replace-env.js writes are
 * the local URLs setup-env.js turns into Codespace URLs, the redirect URIs
 * setup-env.js lists are for the authorization-server ports replace-env.js
 * assigns, and start-with-expose.js waits for every port replace-env.js points
 * a key at.
 */
module Consistency {
  import opened Wrappers
  import opened Text
  import opened Codespace
  import SetupEnv
  import ReplaceEnv
  import StartWithExpose

  /** Text without an `h` in front of a local URL is carried through the URL rewrite unchanged. */
  lemma RewriteLocalhostAfterPlain(pre: string, s: string, id: string)
    requires 'h' !in pre
    ensures SetupEnv.RewriteLocalhost(pre + s, id) == pre + SetupEnv.RewriteLocalhost(s, id)
  {
    var t := pre + s;
    forall j | 0 <= j < |pre| ensures !SetupEnv.LocalhostAtIndex(t, j) {
      assert t[j..][0] == pre[j];
    }
    SetupEnv.RewriteLocalhostCopies(t, id, |pre|);
    assert t[..|pre|] == pre && t[|pre|..] == s;
  }

  /**
   * Inside a Codespace, a key line replace-env.js wrote,
   * `KEY="http://localhost:<port>"`, is turned by setup-env.js into
   * `KEY="https://<id>-<port>.app.github.dev"`: the same port, made public.
   */
  lemma KeyLineBecomesCodespaceUrl(key: ReplaceEnv.EnvKey, port: nat, id: string)
    requires '<' !in id
    ensures var name := ReplaceEnv.KeyName(key);
      SetupEnv.CodespaceContent(ReplaceEnv.KeyLine(name, port), id)
        == name + "=\"" + CodespaceUrl(id, NatToString(port)) + "\""
  {
    var name := ReplaceEnv.KeyName(key);
    var result := name + "=\"" + CodespaceUrl(id, NatToString(port)) + "\"";
    KeyNameChars(key);
    KeyLineRewritten(name, port, id);
    NoAngleInUrlLine(name, id, NatToString(port));
    NoOccurrenceWithout(result, Placeholder);
    ReplaceAllNoOccurrence(result, Placeholder, id);
  }

  lemma KeyNameChars(key: ReplaceEnv.EnvKey)
    ensures 'h' !in ReplaceEnv.KeyName(key) && '<' !in ReplaceEnv.KeyName(key)
  {
  }

  /** The URL rewrite of a key line turns its local URL into the Codespace URL and keeps the rest. */
  lemma KeyLineRewritten(name: string, port: nat, id: string)
    requires 'h' !in name
    ensures SetupEnv.RewriteLocalhost(ReplaceEnv.KeyLine(name, port), id)
         == name + "=\"" + CodespaceUrl(id, NatToString(port)) + "\""
  {
    var pre := name + "=\"";
    var digits := NatToString(port);
    var quote := "\"";
    var url := SetupEnv.LocalhostPrefix + digits + quote;
    LocalUrlValueSplit(port);
    Regroup(name + "=", "\"", url);
    Regroup(name, "=", "\"");
    assert "=" + "\"" == "=\"";
    assert 'h' !in pre;
    RewriteLocalhostAfterPlain(pre, SetupEnv.LocalhostPrefix + digits + quote, id);
    SetupEnv.RewriteLocalUrl(id, port, quote);
    assert SetupEnv.RewriteLocalhost(quote, id) == quote by {
      assert quote[1..] == [];
    }
  }

  /** The quoted local URL replace-env.js writes is a quote, then the text setup-env.js looks for. */
  lemma LocalUrlValueSplit(port: nat)
    ensures ReplaceEnv.LocalUrlValue(port) == "\"" + (SetupEnv.LocalhostPrefix + NatToString(port) + "\"")
  {
    Regroup("\"", SetupEnv.LocalhostPrefix, NatToString(port));
    Regroup("\"", SetupEnv.LocalhostPrefix + NatToString(port), "\"");
    assert "\"" + SetupEnv.LocalhostPrefix == "\"http://localhost:";
  }

  /** A key line pointing at a Codespace URL holds no `<`, so no placeholder either. */
  lemma NoAngleInUrlLine(name: string, id: string, digits: string)
    requires '<' !in name && '<' !in id && AllDigits(digits)
    ensures '<' !in name + "=\"" + CodespaceUrl(id, digits) + "\""
  {
    assert '<' !in digits by {
      forall i | 0 <= i < |digits| ensures digits[i] != '<' {
        assert IsDigit(digits[i]);
      }
    }
    assert '<' !in CodespaceUrl(id, digits);
  }

  /**
   * setup-env.js lists redirect URIs for todo0's authorization server and then
   * agent0's, the AUTH_SERVER ports replace-env.js gives those two apps.
   */
  lemma RedirectPortsAreAuthServerPorts()
    ensures SetupEnv.RedirectPorts
         == [ReplaceEnv.PortFor(ReplaceEnv.AuthServer, Some(ReplaceEnv.Todo0)).value,
             ReplaceEnv.PortFor(ReplaceEnv.AuthServer, Some(ReplaceEnv.Agent0)).value]
  {
  }

  /** Every port replace-env.js points a key at is one start-with-expose.js waits for. */
  lemma PortMapPortsAreProbed(key: ReplaceEnv.EnvKey, app: Option<ReplaceEnv.App>)
    requires ReplaceEnv.PortFor(key, app).Some?
    ensures ReplaceEnv.PortFor(key, app).value in StartWithExpose.PortsToCheck
  {
  }
}
