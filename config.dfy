/** Fixed configuration of the troubleshooter script (e2b_nvim_test.py:15-28). */
module Config {

  /** Where the Neovim configuration is mirrored inside the sandbox. */
  const NvimConfigRemote: string := "/home/user/.config/nvim"

  /** Lifetime, in seconds, requested for the sandbox when it is created. */
  const SandboxTimeout: nat := 900

  /** Exact basenames that are never uploaded: a directory with one of these
      names is pruned with its whole subtree, a file with one is skipped. */
  const SkipPatterns: set<string> :=
    {".git", ".claude", "node_modules", "__pycache__", ".DS_Store", "e2b_nvim_test.py"}
}
