/** What the process tables and the screens share. */
module Terminals {
  const TERMINALS: nat := 3
}
