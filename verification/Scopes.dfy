/** The scope kinds shared by the write side and the read side. */
module Scopes {
  datatype ScopeType = Project | Global | Team
}
