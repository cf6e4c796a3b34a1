/** The workspace that an identifier stands for. */
module Workspaces {
  import opened Text

  const DEFAULT_WORKSPACE := "default"

  function NormalizeWorkspace(value: string): string {
    if TrimSpace(value) == "" then DEFAULT_WORKSPACE else TrimSpace(value)
  }

  lemma DefaultWorkspaceIsTrimmed()
    ensures TrimSpace(DEFAULT_WORKSPACE) == DEFAULT_WORKSPACE && DEFAULT_WORKSPACE != ""
  {
    assert DEFAULT_WORKSPACE[0] == 'd' && DEFAULT_WORKSPACE[|DEFAULT_WORKSPACE| - 1] == 't';
    TrimSpaceKeeps(DEFAULT_WORKSPACE);
  }

  lemma NormalizeWorkspaceTwice(s: string)
    ensures NormalizeWorkspace(NormalizeWorkspace(s)) == NormalizeWorkspace(s) != ""
  {
    TrimTwice(s);
    DefaultWorkspaceIsTrimmed();
  }
}
