/**
 * Small value types shared by the model of the WebXR controller component:
 * an optional value (for C# null and for failed device queries) and the
 * Unity vector and quaternion structs, kept as plain records because the
 * model never computes with them.
 */
module Common {
  datatype Option<T> = None | Some(value: T)

  /** UnityEngine.Vector2. */
  datatype Vec2 = Vec2(x: real, y: real)

  /** UnityEngine.Vector3. */
  datatype Vec3 = Vec3(x: real, y: real, z: real)

  /** UnityEngine.Quaternion. */
  datatype Quat = Quat(x: real, y: real, z: real, w: real)
}
