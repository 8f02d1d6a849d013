/** What nodes, arcs and vertices share: a selection flag and an activation state. */
module Artifacts {
  datatype Activation = Active | Inactive
}
