/** Paths inside a k3s node's filesystem. */
module K3s {

  /** The directory scanned by k3s at start-up for manifests to auto-apply. Defined
      outside this model, so left unspecified. */
  const K3sPathManifestsEmbedded: string
}
