// Contacts and collision pairs shared by the narrow phases and the CCD loop.
module CollisionTypes {
  import opened Vectors

  datatype DetectionType = DetectionNone | Discrete | Continuous

  /** A contact: how it was detected, its depth, its time of impact in [0, 1] of the step,
      its contact point, its normal and the two penetration points. */
  datatype Contact = Contact(kind: DetectionType, depth: real, time: real, point: Vec3, normal: Vec3,
                             penetration0: Vec3, penetration1: Vec3)

  /** A collision pair; the detection type is fixed when the pair is made, the contact list
      is filled and emptied by the pipeline stages. */
  class CollisionPair {
    const id: nat
    const kind: DetectionType
    var contacts: seq<Contact>

    constructor (id: nat, kind: DetectionType)
      ensures this.id == id && this.kind == kind && contacts == []
    {
      this.id := id;
      this.kind := kind;
      contacts := [];
    }
  }
}
