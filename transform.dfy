/**
 * The linear-algebra values of the animation pipeline (glm::vec3, glm::quat,
 * glm::mat4), kept abstract where their numerics do not matter.
 *
 * Vectors carry reals so that glm::mix can be stated exactly. Matrices are a
 * free term algebra: `Mul` is an uninterpreted product, so a proved equation
 * between matrices says which factors were composed and in which order.
 */
module Transform {

  /** glm::vec3, with floats modelled as reals. */
  datatype Vec3 = Vec3(x: real, y: real, z: real)

  /**
   * glm::quat. A keyframe orientation is `Quat`; the spherical interpolation
   * glm::slerp of two orientations is kept symbolic.
   */
  datatype Quat =
    | Quat(w: real, x: real, y: real, z: real)
    | Slerp(from: Quat, to: Quat, factor: real)

  /** glm::mat4. */
  datatype Mat4 =
    | Identity                  // glm::mat4(1.0f)
    | Asset(tag: nat)           // a matrix read from the asset file (rest transform, bone offset)
    | Translate(offset: Vec3)   // glm::translate(glm::mat4(1.0f), v)
    | Rotate(orientation: Quat) // glm::mat4_cast(q)
    | Scale(factors: Vec3)      // glm::scale(glm::mat4(1.0f), v)
    | Mul(left: Mat4, right: Mat4)

  /** glm::mix on vectors: `a * (1 - f) + b * f`, component by component. */
  function Mix(a: Vec3, b: Vec3, f: real): (r: Vec3)
    ensures f == 0.0 ==> r == a
    ensures f == 1.0 ==> r == b
    ensures a == b ==> r == a
  {
    Vec3(a.x * (1.0 - f) + b.x * f,
         a.y * (1.0 - f) + b.y * f,
         a.z * (1.0 - f) + b.z * f)
  }
}
