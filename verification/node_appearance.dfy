/** How the graph view draws a node of a given type
    (services/ui/app/lib/nodeAppearance.ts): label, icon, shape and whether the
    node is drawn as a diamond, all chosen by the normalised node type. */
module NodeAppearance {
  import opened UiText

  datatype Appearance = Appearance(labelText: string, icon: string, shapeClass: string, diamond: bool)

  /** The icon of task-like nodes and of unknown types. */
  const BOX := "\U{25A2}"

  /** The types the table names; every other type takes the default row. */
  const KNOWN_TYPES: seq<string> :=
    ["START", "SUCCESS", "SUCCEEDED", "COMPLETED", "FAILED", "CANCELED", "WAIT", "WAITING", "FORK", "JOIN", "TASK"]

  /** The table row of an already normalised type. */
  function AppearanceOf(n: string): (r: Appearance)
    ensures r.diamond <==> n == "JOIN"
    ensures n in KNOWN_TYPES ==> r.labelText in KNOWN_TYPES
    ensures n !in KNOWN_TYPES ==> r.icon == BOX && r.shapeClass == "rounded-2xl" && !r.diamond
    ensures n !in KNOWN_TYPES ==> r.labelText == (if n == "" then "TASK" else n)
  {
    JoinDiffers(n);
    if n == "START" then Appearance("START", "\U{25B6}", "rounded-none", false)
    else if n == "SUCCESS" || n == "SUCCEEDED" || n == "COMPLETED" then Appearance("SUCCESS", "\U{2713}", "rounded-none", false)
    else if n == "FAILED" then Appearance("FAILED", "\U{26A0}", "rounded-2xl", false)
    else if n == "CANCELED" then Appearance("CANCELED", "\U{2715}", "rounded-2xl", false)
    else if n == "WAIT" || n == "WAITING" then Appearance("WAIT", "\U{23F8}", "rounded-[22px]", false)
    else if n == "FORK" then Appearance("FORK", "\U{21C4}", "rounded-2xl", false)
    else if n == "JOIN" then Appearance("JOIN", "\U{21C5}", "rounded-2xl", true)
    else if n == "TASK" then Appearance("TASK", BOX, "rounded-2xl", false)
    else Appearance(if n == "" then "TASK" else n, BOX, "rounded-2xl", false)
  }

  /** "JOIN" is none of the other names of the table. */
  lemma JoinDiffers(n: string)
    ensures n == "JOIN" ==> n != "WAIT" && n != "FORK" && n != "TASK"
  {
    if n == "JOIN" {
      assert n[0] != "WAIT"[0] && n[0] != "FORK"[0] && n[0] != "TASK"[0];
    }
  }

  /** `getNodeAppearance`: the row of the trimmed, upper-cased type. */
  function GetNodeAppearance(nodeType: string): (r: Appearance)
    ensures r.diamond <==> NormalizeType(nodeType) == "JOIN"
    ensures NormalizeType(nodeType) !in KNOWN_TYPES ==>
              r.labelText == (if NormalizeType(nodeType) == "" then "TASK" else NormalizeType(nodeType))
  {
    AppearanceOf(NormalizeType(nodeType))
  }

  /** The appearance depends only on the normalised type: surrounding white
      space and letter case make no difference. */
  lemma AppearanceNormalized(t: string, u: string)
    requires NormalizeType(t) == NormalizeType(u)
    ensures GetNodeAppearance(t) == GetNodeAppearance(u)
    ensures GetNodeAppearance(NormalizeType(t)) == GetNodeAppearance(t)
  {
    NormalizeTypeIdempotent(t);
  }

  /** SUCCESS, SUCCEEDED and COMPLETED look alike and so do WAIT and WAITING. */
  lemma SharedRows()
    ensures AppearanceOf("SUCCEEDED") == AppearanceOf("SUCCESS") == AppearanceOf("COMPLETED")
    ensures AppearanceOf("SUCCESS").labelText == "SUCCESS"
    ensures AppearanceOf("WAITING") == AppearanceOf("WAIT") && AppearanceOf("WAIT").labelText == "WAIT"
  {
    assert "SUCCEEDED" != "START" && "COMPLETED" != "START";
    assert "WAIT"[0] != "START"[0] && "WAIT"[0] != "FAILED"[0] && "WAIT"[0] != "CANCELED"[0];
    assert "WAITING"[0] != "START"[0] && "WAITING"[0] != "SUCCESS"[0] && "WAITING"[0] != "FAILED"[0];
  }
}
